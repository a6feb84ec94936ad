/**
 * Character classes and the trimming operations of Rust's `str`:
 * `trim`, `trim_end_matches` and the like, all expressed through two
 * primitives that strip a run of characters matching a predicate from
 * one end of a string.
 */
module Text {

  /** Rust's `char::is_whitespace`: the Unicode White_Space property. */
  predicate IsWs(c: char) {
    || ('\t' <= c <= '\r')
    || c == ' '
    || c == '\U{85}'
    || c == '\U{A0}'
    || c == '\U{1680}'
    || ('\U{2000}' <= c <= '\U{200A}')
    || c == '\U{2028}'
    || c == '\U{2029}'
    || c == '\U{202F}'
    || c == '\U{205F}'
    || c == '\U{3000}'
  }

  /** Every character of `s` satisfies `p`. */
  predicate All(s: string, p: char -> bool) {
    forall i :: 0 <= i < |s| ==> p(s[i])
  }

  /** `s` neither starts nor ends with whitespace (the shape `trim` leaves). */
  predicate IsTrimmed(s: string) {
    s == [] || (!IsWs(s[0]) && !IsWs(s[|s| - 1]))
  }

  /** Removes the longest prefix of characters satisfying `drop`. */
  function TrimStartWhere(s: string, drop: char -> bool): (r: string)
    ensures |r| <= |s| && r == s[|s| - |r|..]
    ensures All(s[..|s| - |r|], drop)
    ensures r == [] || !drop(r[0])
    decreases |s|
  {
    if s != [] && drop(s[0]) then TrimStartWhere(s[1..], drop) else s
  }

  /** Removes the longest suffix of characters satisfying `drop`
      (Rust's `trim_end_matches` with a character pattern). */
  function TrimEndWhere(s: string, drop: char -> bool): (r: string)
    ensures |r| <= |s| && r == s[..|r|]
    ensures All(s[|r|..], drop)
    ensures r == [] || !drop(r[|r| - 1])
    decreases |s|
  {
    if s != [] && drop(s[|s| - 1]) then TrimEndWhere(s[..|s| - 1], drop) else s
  }

  /** The stripped prefix is determined by the shape of the string:
      any split into a body not starting with a dropped character after
      a run of dropped characters is the one `TrimStartWhere` finds. */
  lemma {:induction false} TrimStartWhereUnique(h: string, m: string, drop: char -> bool)
    requires All(h, drop)
    requires m == [] || !drop(m[0])
    ensures TrimStartWhere(h + m, drop) == m
  {
    var s := h + m;
    var r := TrimStartWhere(s, drop);
    forall i | 0 <= i < |s| - |r| ensures drop(s[i]) {
      assert s[i] == s[..|s| - |r|][i];
    }
    if m != [] {
      assert s[|h|] == m[0];
    }
  }

  /** Symmetric to `TrimStartWhereUnique` for the end of a string. */
  lemma {:induction false} TrimEndWhereUnique(m: string, t: string, drop: char -> bool)
    requires All(t, drop)
    requires m == [] || !drop(m[|m| - 1])
    ensures TrimEndWhere(m + t, drop) == m
  {
    var s := m + t;
    var r := TrimEndWhere(s, drop);
    forall i | |r| <= i < |s| ensures drop(s[i]) {
      assert s[i] == s[|r|..][i - |r|];
    }
    if m != [] {
      assert s[|m| - 1] == m[|m| - 1];
    }
  }

  /** A string trims to nothing exactly when it is all whitespace. */
  lemma {:induction false} TrimEmptyIff(s: string)
    ensures TrimEndWhere(TrimStartWhere(s, IsWs), IsWs) == [] <==> All(s, IsWs)
  {
    var t := TrimStartWhere(s, IsWs);
    var r := TrimEndWhere(t, IsWs);
    if r == [] {
      assert t[|r|..] == t;
      forall i | 0 <= i < |s| ensures IsWs(s[i]) {
        if i >= |s| - |t| {
          assert s[i] == t[i - (|s| - |t|)];
        } else {
          assert s[i] == s[..|s| - |t|][i];
        }
      }
    } else {
      assert t[0] == s[|s| - |t|];
    }
  }

  /** Rust's `str::trim`: strips leading and trailing whitespace. */
  function Trim(s: string): (r: string)
    ensures |r| <= |s|
    ensures IsTrimmed(r)
    ensures r == [] <==> All(s, IsWs)
  {
    var t := TrimStartWhere(s, IsWs);
    var r := TrimEndWhere(t, IsWs);
    assert r != [] ==> r[0] == t[0];
    TrimEmptyIff(s);
    r
  }

  /** Trimming recovers exactly the trimmed body framed by whitespace,
      whatever whitespace surrounds it. */
  lemma TrimOf(a: string, m: string, b: string)
    requires All(a, IsWs) && All(b, IsWs)
    requires IsTrimmed(m)
    ensures Trim(a + m + b) == m
  {
    if m == [] {
      assert a + m + b == (a + b) + m;
      assert All(a + b, IsWs);
      TrimStartWhereUnique(a + b, [], IsWs);
      assert TrimStartWhere(a + m + b, IsWs) == [];
      TrimEndWhereUnique([], [], IsWs);
    } else {
      assert a + m + b == a + (m + b);
      TrimStartWhereUnique(a, m + b, IsWs);
      TrimEndWhereUnique(m, b, IsWs);
    }
  }

  /** A trimmed string is its own trim, so trimming twice is trimming once. */
  lemma TrimTrimmed(s: string)
    requires IsTrimmed(s)
    ensures Trim(s) == s
  {
    TrimOf([], s, []);
    assert [] + s + [] == s;
  }

  lemma TrimIdempotent(s: string)
    ensures Trim(Trim(s)) == Trim(s)
  {
    TrimTrimmed(Trim(s));
  }
}
