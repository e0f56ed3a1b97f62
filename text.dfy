/** The JavaScript string operations the parser and the filters rely on:
    `trim`, `toLowerCase`, `includes`, `split`, `replace` of a single
    character, and the decimal rendering of a row number. */
module Text {
  import opened Seqs

  /** ECMAScript WhiteSpace and LineTerminator code points, the set `trim` strips. */
  predicate IsWhitespace(c: char) {
    c == ' ' || c == '\t' || c == '\n' || c == '\r' || c == '\U{000B}' || c == '\U{000C}'
    || c == '\U{00A0}' || c == '\U{1680}' || ('\U{2000}' <= c <= '\U{200A}')
    || c == '\U{2028}' || c == '\U{2029}' || c == '\U{202F}' || c == '\U{205F}'
    || c == '\U{3000}' || c == '\U{FEFF}'
  }

  /** Neither end of `s` is whitespace. */
  predicate IsTrimmed(s: string) {
    s == [] || (!IsWhitespace(s[0]) && !IsWhitespace(s[|s| - 1]))
  }

  function TrimStart(s: string): (r: string)
    ensures |r| <= |s|
    ensures r == [] || !IsWhitespace(r[0])
  {
    if s != [] && IsWhitespace(s[0]) then TrimStart(s[1..]) else s
  }

  function TrimEnd(s: string): (r: string)
    ensures |r| <= |s|
    ensures r == [] || !IsWhitespace(r[|r| - 1])
    ensures r != [] ==> r[0] == s[0]
  {
    if s != [] && IsWhitespace(s[|s| - 1]) then TrimEnd(s[..|s| - 1]) else s
  }

  /** `s.trim()`: `s` without its leading and trailing whitespace. */
  function Trim(s: string): (r: string)
    ensures IsTrimmed(r)
    ensures |r| <= |s|
  {
    TrimEnd(TrimStart(s))
  }

  /** TrimStart drops a whitespace prefix and keeps the rest. */
  lemma {:induction false} TrimStartIsSuffix(s: string)
    ensures TrimStart(s) == s[|s| - |TrimStart(s)|..]
    ensures forall k :: 0 <= k < |s| - |TrimStart(s)| ==> IsWhitespace(s[k])
  {
    if s != [] && IsWhitespace(s[0]) {
      TrimStartIsSuffix(s[1..]);
      forall k | 1 <= k < |s| - |TrimStart(s)| ensures IsWhitespace(s[k]) {
        assert s[k] == s[1..][k - 1];
      }
    }
  }

  /** TrimEnd drops a whitespace suffix and keeps the rest. */
  lemma {:induction false} TrimEndIsPrefix(s: string)
    ensures TrimEnd(s) == s[..|TrimEnd(s)|]
    ensures forall k :: |TrimEnd(s)| <= k < |s| ==> IsWhitespace(s[k])
  {
    if s != [] && IsWhitespace(s[|s| - 1]) {
      TrimEndIsPrefix(s[..|s| - 1]);
    }
  }

  /** Trim cuts a contiguous slice out of `s`, and only whitespace is cut. */
  lemma TrimIsSlice(s: string) returns (i: nat, j: nat)
    ensures i <= j <= |s| && Trim(s) == s[i..j]
    ensures forall k :: 0 <= k < i ==> IsWhitespace(s[k])
    ensures forall k :: j <= k < |s| ==> IsWhitespace(s[k])
  {
    var t := TrimStart(s);
    TrimStartIsSuffix(s);
    TrimEndIsPrefix(t);
    i := |s| - |t|;
    j := i + |Trim(s)|;
    assert t == s[i..];
    assert Trim(s) == t[..j - i];
    assert t[..j - i] == s[i..j];
    forall k | j <= k < |s| ensures IsWhitespace(s[k]) {
      assert s[k] == t[k - i];
    }
  }

  /** A character absent from `s` is absent from `s.trim()`. */
  lemma TrimKeepsAbsent(s: string, c: char)
    requires c !in s
    ensures c !in Trim(s)
  {
    var i, j := TrimIsSlice(s);
  }

  /** Trimming is idempotent. */
  lemma {:induction false} TrimIdempotent(s: string)
    ensures Trim(Trim(s)) == Trim(s)
  {
    var t := Trim(s);
    assert TrimStart(t) == t;
    assert TrimEnd(t) == t;
  }

  function LowerChar(c: char): char {
    if IsUpper(c) then (c as int + 32) as char else c
  }

  /** `s.toLowerCase()` on the ASCII letters: no upper-case letter is left,
      and every other character stays where it was. */
  function ToLower(s: string): (r: string)
    ensures |r| == |s|
    ensures forall k :: 0 <= k < |r| ==> !IsUpper(r[k])
    ensures forall k :: 0 <= k < |s| && !IsUpper(s[k]) ==> r[k] == s[k]
    ensures forall k :: 0 <= k < |s| ==> r[k] == LowerChar(s[k])
  {
    seq(|s|, k requires 0 <= k < |s| => LowerChar(s[k]))
  }

  predicate IsUpper(c: char) {
    'A' <= c <= 'Z'
  }

  /** A string is its own lower-case form exactly when it holds no upper-case letter. */
  lemma {:induction false} ToLowerFixed(s: string)
    ensures ToLower(s) == s <==> forall k :: 0 <= k < |s| ==> !IsUpper(s[k])
  {
    if forall k :: 0 <= k < |s| ==> !IsUpper(s[k]) {
      forall k | 0 <= k < |s| ensures ToLower(s)[k] == s[k] {
        assert LowerChar(s[k]) == s[k];
      }
    } else {
      var k :| 0 <= k < |s| && IsUpper(s[k]);
      assert ToLower(s)[k] != s[k];
    }
  }

  /** Lower-casing a string twice is lower-casing it once. */
  lemma {:induction false} ToLowerIdempotent(s: string)
    ensures ToLower(ToLower(s)) == ToLower(s)
  {
    ToLowerFixed(ToLower(s));
  }

  predicate StartsWith(s: string, w: string) {
    |w| <= |s| && s[..|w|] == w
  }

  /** `s.includes(w)`: `w` occurs in `s` as a contiguous block. */
  predicate Contains(s: string, w: string) {
    StartsWith(s, w) || (s != [] && Contains(s[1..], w))
  }

  /** Every string contains the empty string. */
  lemma ContainsEmpty(s: string)
    ensures Contains(s, "")
  {
    assert StartsWith(s, "");
  }

  lemma {:induction false} ContainsDropLast(s: string, c: char, w: string)
    requires w != [] && w[|w| - 1] != c
    ensures Contains(s + [c], w) == Contains(s, w)
  {
    var t := s + [c];
    assert StartsWith(t, w) == StartsWith(s, w) by {
      if |w| <= |s| {
        assert t[..|w|] == s[..|w|];
      } else if |w| == |t| {
        assert t[|w| - 1] == c;
      }
    }
    if s != [] {
      ContainsDropLast(s[1..], c, w);
      assert t[1..] == s[1..] + [c];
    } else {
      assert t[1..] == [];
    }
  }

  /** `includes` of a non-empty word that begins and ends with a non-space is blind to trimming. */
  lemma {:induction false} ContainsTrim(s: string, w: string)
    requires w != [] && !IsWhitespace(w[0]) && !IsWhitespace(w[|w| - 1])
    ensures Contains(Trim(s), w) == Contains(s, w)
  {
    TrimStartContains(s, w);
    TrimEndContains(TrimStart(s), w);
  }

  lemma {:induction false} TrimStartContains(s: string, w: string)
    requires w != [] && !IsWhitespace(w[0])
    ensures Contains(TrimStart(s), w) == Contains(s, w)
  {
    if s != [] && IsWhitespace(s[0]) {
      TrimStartContains(s[1..], w);
      assert !StartsWith(s, w);
    }
  }

  lemma {:induction false} TrimEndContains(s: string, w: string)
    requires w != [] && !IsWhitespace(w[|w| - 1])
    ensures Contains(TrimEnd(s), w) == Contains(s, w)
  {
    if s != [] && IsWhitespace(s[|s| - 1]) {
      var s' := s[..|s| - 1];
      TrimEndContains(s', w);
      ContainsDropLast(s', s[|s| - 1], w);
      assert s' + [s[|s| - 1]] == s;
    }
  }

  /** The number of characters of `s` that belong to `cs`. */
  function CountIn(s: string, cs: set<char>): nat {
    if s == [] then 0 else (if s[0] in cs then 1 else 0) + CountIn(s[1..], cs)
  }

  /** `s.split(sep)` for a single separator, and `s.split(/[...]/)` for a character class. */
  function Split(s: string, seps: set<char>): (r: seq<string>)
    ensures |r| >= 1
  {
    if s == [] then [""]
    else if s[0] in seps then [""] + Split(s[1..], seps)
    else var rest := Split(s[1..], seps); [[s[0]] + rest[0]] + rest[1..]
  }

  /** Split yields one more piece than there are separators, and no piece holds a separator. */
  lemma {:induction false} SplitPieces(s: string, seps: set<char>)
    ensures |Split(s, seps)| == 1 + CountIn(s, seps)
    ensures forall i, k :: 0 <= i < |Split(s, seps)| && 0 <= k < |Split(s, seps)[i]| ==> Split(s, seps)[i][k] !in seps
  {
    if s != [] {
      SplitPieces(s[1..], seps);
      var rest := Split(s[1..], seps);
      if s[0] !in seps {
        var r := Split(s, seps);
        assert r[0] == [s[0]] + rest[0];
        forall i, k | 0 <= i < |r| && 0 <= k < |r[i]| ensures r[i][k] !in seps {
          if i == 0 && k > 0 {
            assert r[0][k] == rest[0][k - 1];
          } else if i > 0 {
            assert r[i] == rest[i];
          }
        }
      }
    }
  }

  /** Every character of every piece comes from the split text. */
  lemma {:induction false} SplitChars(s: string, seps: set<char>)
    ensures forall i, k :: 0 <= i < |Split(s, seps)| && 0 <= k < |Split(s, seps)[i]| ==> Split(s, seps)[i][k] in s
  {
    if s != [] {
      SplitChars(s[1..], seps);
      var rest := Split(s[1..], seps);
      var r := Split(s, seps);
      forall i, k | 0 <= i < |r| && 0 <= k < |r[i]| ensures r[i][k] in s {
        if s[0] in seps {
          assert r[i] == rest[i - 1];
          assert r[i][k] in s[1..];
        } else if i == 0 && k == 0 {
        } else if i == 0 {
          assert r[0][k] == rest[0][k - 1];
          assert r[i][k] in s[1..];
        } else {
          assert r[i] == rest[i];
          assert r[i][k] in s[1..];
        }
      }
    }
  }

  /** `pieces.join(sep)`. */
  function Join(pieces: seq<string>, sep: char): string
    decreases |pieces|
  {
    if pieces == [] then []
    else if |pieces| == 1 then pieces[0]
    else pieces[0] + [sep] + Join(pieces[1..], sep)
  }

  /** Gluing text onto the first piece glues it onto the joined text. */
  lemma JoinGlueFirst(x: string, pieces: seq<string>, sep: char)
    requires pieces != []
    ensures Join([x + pieces[0]] + pieces[1..], sep) == x + Join(pieces, sep)
  {
    var glued := [x + pieces[0]] + pieces[1..];
    if |pieces| > 1 {
      assert glued[1..] == pieces[1..];
    }
  }

  /** Splitting on one character and joining with it gives back the original text. */
  lemma {:induction false} SplitJoin(s: string, sep: char)
    ensures Join(Split(s, {sep}), sep) == s
  {
    if s != [] {
      var rest := Split(s[1..], {sep});
      SplitJoin(s[1..], sep);
      if s[0] == sep {
        assert Split(s, {sep}) == [""] + rest;
        assert Join([""] + rest, sep) == "" + [sep] + Join(rest, sep);
      } else {
        JoinGlueFirst([s[0]], rest, sep);
      }
      assert s == [s[0]] + s[1..];
    }
  }

  /** `s.replace(/[...]/g, '')`: every character of `cs` removed. */
  function RemoveChars(s: string, cs: set<char>): string {
    Filter(s, c => c !in cs)
  }

  /** The characters of `s` outside `cs` all remain, in order, and none of `cs` does. */
  lemma RemoveCharsSpec(s: string, cs: set<char>)
    ensures IsSubseq(RemoveChars(s, cs), s)
    ensures forall c :: c in RemoveChars(s, cs) <==> c in s && c !in cs
    ensures forall c :: multiset(RemoveChars(s, cs))[c] == if c in cs then 0 else multiset(s)[c]
  {
    FilterIsSubseq(s, c => c !in cs);
    forall c ensures c in RemoveChars(s, cs) <==> c in s && c !in cs {
      FilterMembership(s, c => c !in cs, c);
    }
    forall c ensures multiset(RemoveChars(s, cs))[c] == if c in cs then 0 else multiset(s)[c] {
      FilterCount(s, c => c !in cs, c);
    }
  }

  /** `s.replace(c, '')` with a string pattern: only the first occurrence is removed. */
  function RemoveFirst(s: string, c: char): (r: string)
    ensures c !in s ==> r == s
    ensures c in s ==> |r| == |s| - 1
  {
    if s == [] then []
    else if s[0] == c then s[1..]
    else [s[0]] + RemoveFirst(s[1..], c)
  }

  /** Index of the first `c` in `s`. */
  function IndexOf(s: string, c: char): (k: nat)
    requires c in s
    ensures k < |s| && s[k] == c && c !in s[..k]
  {
    if s[0] == c then 0 else 1 + IndexOf(s[1..], c)
  }

  /** Removing the first `c` cuts out exactly the position `IndexOf` finds. */
  lemma {:induction false} RemoveFirstSlice(s: string, c: char)
    requires c in s
    ensures RemoveFirst(s, c) == s[..IndexOf(s, c)] + s[IndexOf(s, c) + 1..]
  {
    if s[0] != c {
      RemoveFirstSlice(s[1..], c);
      var k' := IndexOf(s[1..], c);
      assert s[..k' + 1] == [s[0]] + s[1..][..k'];
      assert s[k' + 2..] == s[1..][k' + 1..];
    }
  }

  /** Removing the first `c` is undone by putting it back at its first position. */
  lemma {:induction false} RemoveFirstRestores(s: string, c: char)
    requires c in s
    ensures var k := IndexOf(s, c); s == RemoveFirst(s, c)[..k] + [c] + RemoveFirst(s, c)[k..]
  {
    var k := IndexOf(s, c);
    var before, after := s[..k], s[k + 1..];
    var r := RemoveFirst(s, c);
    assert r == before + after by {
      RemoveFirstSlice(s, c);
    }
    assert |before| == k;
    assert r[..k] == before && r[k..] == after;
    assert s == before + [c] + after by {
      assert s[k] == c;
    }
  }

  function DigitChar(d: nat): char
    requires d < 10
  {
    ('0' as int + d) as char
  }

  /** The decimal rendering of `n`, as a template literal `${n}` gives it:
      digits only, with no leading zero except for 0 itself. */
  function NatToString(n: nat): (r: string)
    ensures r != []
    ensures forall k :: 0 <= k < |r| ==> '0' <= r[k] <= '9'
    ensures r[0] == '0' <==> n == 0
    ensures |r| > 1 ==> r[0] != '0'
  {
    if n < 10 then [DigitChar(n)] else NatToString(n / 10) + [DigitChar(n % 10)]
  }

  /** Reads a string of decimal digits back as a number. */
  function DecimalValue(s: string): nat
    requires forall k :: 0 <= k < |s| ==> '0' <= s[k] <= '9'
  {
    if s == [] then 0
    else 10 * DecimalValue(s[..|s| - 1]) + (s[|s| - 1] as int - '0' as int)
  }

  /** The rendering is faithful: reading it back yields the number. */
  lemma {:induction false} NatToStringRoundTrip(n: nat)
    ensures DecimalValue(NatToString(n)) == n
  {
    if n >= 10 {
      NatToStringRoundTrip(n / 10);
      var r := NatToString(n);
      assert r[..|r| - 1] == NatToString(n / 10);
    }
  }
}
