/** String trimming as done by .NET's `string.Trim()`: every text read by the
    wrappers is trimmed before it is returned. */
module Text {

  /** .NET `Char.IsWhiteSpace`: the Unicode space, line and paragraph
      separators plus the control characters U+0009..U+000D and U+0085. */
  predicate IsWhite(c: char) {
    var n := c as int;
    || (0x09 <= n <= 0x0D)
    || n == 0x20
    || n == 0x85
    || n == 0xA0
    || n == 0x1680
    || (0x2000 <= n <= 0x200A)
    || n == 0x2028
    || n == 0x2029
    || n == 0x202F
    || n == 0x205F
    || n == 0x3000
  }

  predicate AllWhite(s: string) {
    forall i :: 0 <= i < |s| ==> IsWhite(s[i])
  }

  /** Neither end of `s` is whitespace. */
  predicate IsTrimmed(s: string) {
    |s| == 0 || (!IsWhite(s[0]) && !IsWhite(s[|s| - 1]))
  }

  /** `r` is `s` with the `i` characters before it and all characters after
      it removed, and only whitespace was removed. */
  predicate StripsAt(s: string, r: string, i: nat) {
    i + |r| <= |s| && s[i..i + |r|] == r && AllWhite(s[..i]) && AllWhite(s[i + |r|..])
  }

  /** Number of whitespace characters at the front of `s`. */
  function Lead(s: string): (n: nat)
    ensures n <= |s|
    decreases |s|
  {
    if s != [] && IsWhite(s[0]) then 1 + Lead(s[1..]) else 0
  }

  /** `string.Trim()`: cut whitespace from the front, then from the back. */
  function Trim(s: string): (r: string)
    ensures IsTrimmed(r)
    decreases |s|
  {
    if s != [] && IsWhite(s[0]) then Trim(s[1..])
    else if s != [] && IsWhite(s[|s| - 1]) then Trim(s[..|s| - 1])
    else s
  }

  /** Trim keeps the piece of `s` that follows its leading whitespace, and
      only whitespace is cut from either end. */
  lemma {:induction false} TrimStrips(s: string)
    ensures StripsAt(s, Trim(s), Lead(s))
    decreases |s|
  {
    if s != [] && IsWhite(s[0]) {
      TrimStrips(s[1..]);
      StripsPastFront(s, Trim(s), Lead(s[1..]));
    } else if s != [] && IsWhite(s[|s| - 1]) {
      TrimStrips(s[..|s| - 1]);
      StripsPastBack(s, Trim(s));
    } else {
      assert s[0..0 + |s|] == s && s[..0] == [] && s[|s|..] == [];
    }
  }

  /** A leading whitespace character shifts the stripped piece by one. */
  lemma StripsPastFront(s: string, r: string, i: nat)
    requires s != [] && IsWhite(s[0]) && StripsAt(s[1..], r, i)
    ensures StripsAt(s, r, 1 + i)
  {
    var u := s[1..];
    assert s[1 + i..1 + i + |r|] == u[i..i + |r|];
    assert s[1 + i + |r|..] == u[i + |r|..];
    assert s[..1 + i] == [s[0]] + u[..i];
  }

  /** A trailing whitespace character joins the whitespace after the piece. */
  lemma StripsPastBack(s: string, r: string)
    requires s != [] && IsWhite(s[|s| - 1]) && StripsAt(s[..|s| - 1], r, 0)
    ensures StripsAt(s, r, 0)
  {
    var u := s[..|s| - 1];
    assert s[0..|r|] == u[0..|r|];
    assert s[|r|..] == u[|r|..] + [s[|s| - 1]];
  }

  /** Trim yields "" exactly for all-whitespace strings. */
  lemma TrimEmptyIffWhite(s: string)
    ensures Trim(s) == [] <==> AllWhite(s)
  {
    var r := Trim(s);
    var i := Lead(s);
    TrimStrips(s);
    if r == [] {
      forall k | 0 <= k < |s| ensures IsWhite(s[k]) {
        if k < i { WhiteBefore(s, i, k); } else { WhiteAfter(s, i, k); }
      }
    } else {
      assert s[i..i + |r|][0] == s[i];
    }
  }

  lemma WhiteBefore(s: string, i: nat, k: nat)
    requires i <= |s| && AllWhite(s[..i]) && k < i
    ensures IsWhite(s[k])
  {
    assert s[..i][k] == s[k];
  }

  lemma WhiteAfter(s: string, m: int, k: int)
    requires 0 <= m <= k < |s| && AllWhite(s[m..])
    ensures IsWhite(s[k])
  {
    assert s[m..][k - m] == s[k];
  }

  /** Two trimmed pieces that `s` strips down to are the same piece. */
  lemma {:induction false} StrippedPiecesAgree(s: string, t: string, i: nat, r: string, j: nat)
    requires IsTrimmed(t) && StripsAt(s, t, i)
    requires IsTrimmed(r) && StripsAt(s, r, j)
    requires r == [] <==> AllWhite(s)
    ensures t == r
  {
    if t == [] {
      forall k | 0 <= k < |s| ensures IsWhite(s[k]) {
        if k < i { WhiteBefore(s, i, k); } else { WhiteAfter(s, i, k); }
      }
    } else {
      assert s[i..i + |t|][0] == s[i];
      assert !IsWhite(s[i]);
      assert s[j..j + |r|][0] == s[j];
      assert !IsWhite(s[j]);
      // both start at the first non-whitespace character of s
      if i < j { WhiteBefore(s, j, i); }
      if j < i { WhiteBefore(s, i, j); }
      // and end at the last one
      var a := i + |t| - 1;
      var b := j + |r| - 1;
      assert s[i..i + |t|][|t| - 1] == s[a];
      assert s[j..j + |r|][|r| - 1] == s[b];
      if a < b { WhiteAfter(s, i + |t|, b); }
      if b < a { WhiteAfter(s, j + |r|, a); }
      assert |t| == |r|;
    }
  }

  /** Trim is characterised by its contract and TrimStrips: any trimmed
      piece that `s` strips down to is `Trim(s)`. */
  lemma TrimUnique(s: string, t: string, i: nat)
    requires IsTrimmed(t) && StripsAt(s, t, i)
    ensures t == Trim(s)
  {
    TrimStrips(s);
    TrimEmptyIffWhite(s);
    StrippedPiecesAgree(s, t, i, Trim(s), Lead(s));
  }

  /** Trimming twice is trimming once. */
  lemma TrimIdempotent(s: string)
    ensures Trim(Trim(s)) == Trim(s)
  {
  }

  /** Trim changes exactly the strings that start or end with whitespace. */
  lemma TrimFixesExactlyTrimmed(s: string)
    ensures Trim(s) == s <==> IsTrimmed(s)
  {
  }
}
