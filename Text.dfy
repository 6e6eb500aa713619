/**
 * Whitespace trimming as done by Python's `str.strip()` with no argument:
 * leading and trailing characters for which `str.isspace()` holds are
 * removed, everything in between is kept as it is.
 */
module Text {

  /** Python's `str.isspace()` for one character: the ASCII controls
      TAB..CR and FS..US, SPACE, NEL, NO-BREAK SPACE and the Unicode
      space separators and line/paragraph separators. */
  predicate IsSpace(c: char)
    ensures c == ' ' || c == '\t' || c == '\n' || c == '\r' ==> IsSpace(c)
    ensures '0' <= c <= '9' || 'A' <= c <= 'Z' || 'a' <= c <= 'z' || c == '-' || c == '_' ==> !IsSpace(c)
    ensures IsSpace(c) ==> c as int <= 0x3000
  {
    var n := c as int;
    (0x09 <= n <= 0x0D) || (0x1C <= n <= 0x20) || n == 0x85 || n == 0xA0 ||
    n == 0x1680 || (0x2000 <= n <= 0x200A) || n == 0x2028 || n == 0x2029 ||
    n == 0x202F || n == 0x205F || n == 0x3000
  }

  /** Every character of `s` is whitespace (vacuously so for ""). */
  predicate AllSpace(s: string) {
    forall i :: 0 <= i < |s| ==> IsSpace(s[i])
  }

  /** `s` neither starts nor ends with whitespace. */
  predicate EdgeFree(s: string) {
    s == [] || (!IsSpace(s[0]) && !IsSpace(s[|s| - 1]))
  }

  /** `s` is `m` with whitespace only in front of it (the first `i`
      characters) and behind it. */
  predicate PaddedAt(s: string, i: int, m: string) {
    0 <= i && i + |m| <= |s| && m == s[i..i + |m|] &&
    AllSpace(s[..i]) && AllSpace(s[i + |m|..])
  }

  /** `str.strip()`: drops whitespace from both ends until both ends are
      non-space or nothing is left; it is empty exactly when `s` is all
      whitespace. */
  function Strip(s: string): (r: string)
    ensures |r| <= |s|
    ensures EdgeFree(r)
    ensures r == [] <==> AllSpace(s)
    decreases |s|
  {
    if s == [] then []
    else if IsSpace(s[0]) then
      var r := Strip(s[1..]);
      assert AllSpace(s) <==> AllSpace(s[1..]) by {
        assert forall i :: 1 <= i < |s| ==> s[i] == s[1..][i - 1];
      }
      r
    else if IsSpace(s[|s| - 1]) then
      var r := Strip(s[..|s| - 1]);
      assert !AllSpace(s[..|s| - 1]) by {
        assert s[..|s| - 1][0] == s[0];
      }
      r
    else
      s
  }

  /** A whitespace character in front keeps `m` padded, one place later. */
  lemma PaddedAtCons(s: string, i: int, m: string)
    requires s != [] && IsSpace(s[0]) && PaddedAt(s[1..], i, m)
    ensures PaddedAt(s, i + 1, m)
  {
    assert s[i + 1..i + 1 + |m|] == s[1..][i..i + |m|];
    assert s[i + 1 + |m|..] == s[1..][i + |m|..];
    var front := s[..i + 1];
    forall k | 0 <= k < |front| ensures IsSpace(front[k]) {
      if k > 0 { assert front[k] == s[1..][..i][k - 1]; }
    }
  }

  /** A whitespace character behind keeps `m` padded at the same place. */
  lemma PaddedAtSnoc(s: string, i: int, m: string)
    requires s != [] && IsSpace(s[|s| - 1]) && PaddedAt(s[..|s| - 1], i, m)
    ensures PaddedAt(s, i, m)
  {
    var t := s[..|s| - 1];
    assert s[..i] == t[..i];
    assert s[i..i + |m|] == t[i..i + |m|];
    var back := s[i + |m|..];
    forall k | 0 <= k < |back| ensures IsSpace(back[k]) {
      if k < |back| - 1 { assert back[k] == t[i + |m|..][k]; }
    }
  }

  /** The stripped string is an infix of `s` with only whitespace in front
      of it and behind it. */
  lemma {:induction false} StripIsInfix(s: string)
    ensures exists i :: PaddedAt(s, i, Strip(s))
    decreases |s|
  {
    if s == [] {
      assert PaddedAt(s, 0, Strip(s));
    } else if IsSpace(s[0]) {
      StripIsInfix(s[1..]);
      var i :| PaddedAt(s[1..], i, Strip(s[1..]));
      PaddedAtCons(s, i, Strip(s[1..]));
      assert PaddedAt(s, i + 1, Strip(s));
    } else if IsSpace(s[|s| - 1]) {
      StripIsInfix(s[..|s| - 1]);
      var i :| PaddedAt(s[..|s| - 1], i, Strip(s[..|s| - 1]));
      PaddedAtSnoc(s, i, Strip(s[..|s| - 1]));
      assert PaddedAt(s, i, Strip(s));
    } else {
      assert s[..0] == [] && s[0..|s|] == s && s[|s|..] == [];
      assert PaddedAt(s, 0, Strip(s));
    }
  }

  /** `Strip` is characterised by its result: whatever whitespace pads an
      edge-free string on either side, stripping gives back that string. */
  lemma {:induction false} StripOfPadded(a: string, m: string, b: string)
    requires AllSpace(a) && AllSpace(b) && EdgeFree(m)
    ensures Strip(a + m + b) == m
    decreases |a| + |b|
  {
    var s := a + m + b;
    if m == [] {
      // the whole string is whitespace
      assert AllSpace(s) by {
        forall i | 0 <= i < |s| ensures IsSpace(s[i]) {
          if i < |a| { assert s[i] == a[i]; } else { assert s[i] == b[i - |a|]; }
        }
      }
    } else if a != [] {
      assert s[0] == a[0];
      assert s[1..] == a[1..] + m + b;
      StripOfPadded(a[1..], m, b);
    } else if b != [] {
      assert s[0] == m[0];
      assert s[|s| - 1] == b[|b| - 1];
      assert s[..|s| - 1] == a + m + b[..|b| - 1];
      StripOfPadded(a, m, b[..|b| - 1]);
    } else {
      assert s == m;
    }
  }

  /** A string without whitespace on its edges is its own strip. */
  lemma StripEdgeFree(m: string)
    requires EdgeFree(m)
    ensures Strip(m) == m
  {
    assert [] + m + [] == m;
    StripOfPadded([], m, []);
  }

  /** Stripping twice is stripping once. */
  lemma StripIdempotent(s: string)
    ensures Strip(Strip(s)) == Strip(s)
  {
    StripEdgeFree(Strip(s));
  }
}
