/** The two Python string primitives the response parser depends on:
    the whitespace class (`str.isspace`, which is also what `\s` matches in a
    `str` pattern) and `str.strip()` called with no argument. */
module PyStr {

  /** Python's whitespace characters: U+0009..U+000D, U+001C..U+0020, U+0085,
      U+00A0, U+1680, U+2000..U+200A, U+2028, U+2029, U+202F, U+205F, U+3000. */
  predicate IsSpace(c: char) {
    || ('\U{9}' <= c <= '\U{d}')
    || ('\U{1c}' <= c <= '\U{20}')
    || c == '\U{85}' || c == '\U{a0}' || c == '\U{1680}'
    || ('\U{2000}' <= c <= '\U{200a}')
    || c == '\U{2028}' || c == '\U{2029}' || c == '\U{202f}'
    || c == '\U{205f}' || c == '\U{3000}'
  }

  predicate AllSpace(t: string) {
    forall j :: 0 <= j < |t| ==> IsSpace(t[j])
  }

  /** Every character of `t` outside the index range [a, b) is whitespace. */
  predicate SpaceOutside(t: string, a: nat, b: nat) {
    forall j :: 0 <= j < |t| && !(a <= j < b) ==> IsSpace(t[j])
  }

  /** The first index at or after `i` that does not hold whitespace (or |t|). */
  function SkipSpace(t: string, i: nat): (r: nat)
    requires i <= |t|
    ensures i <= r <= |t|
    ensures forall j :: i <= j < r ==> IsSpace(t[j])
    ensures r < |t| ==> !IsSpace(t[r])
    decreases |t| - i
  {
    if i == |t| || !IsSpace(t[i]) then i else SkipSpace(t, i + 1)
  }

  /** Scanning down from `j` towards `a`: the least `r` such that t[r..j] is
      all whitespace. */
  function SkipSpaceBack(t: string, a: nat, j: nat): (r: nat)
    requires a <= j <= |t|
    ensures a <= r <= j
    ensures forall k :: r <= k < j ==> IsSpace(t[k])
    ensures a < r ==> !IsSpace(t[r - 1])
    decreases j
  {
    if j == a || !IsSpace(t[j - 1]) then j else SkipSpaceBack(t, a, j - 1)
  }

  /** `t.strip()`: the slice of `t` left after removing whitespace from both
      ends. Only whitespace is removed, and the result neither begins nor ends
      with whitespace. */
  function Strip(t: string): (r: string)
    ensures r == [] || (!IsSpace(r[0]) && !IsSpace(r[|r| - 1]))
    ensures exists a: nat, b: nat :: a <= b <= |t| && r == t[a..b] && SpaceOutside(t, a, b)
  {
    var a := SkipSpace(t, 0);
    var b := SkipSpaceBack(t, a, |t|);
    assert SpaceOutside(t, a, b);
    t[a..b]
  }

  /** The two ensures of Strip determine its result: a slice with the same two
      properties is the one Strip returns. */
  lemma {:induction false} StripUnique(t: string, a: nat, b: nat)
    requires a <= b <= |t| && SpaceOutside(t, a, b)
    requires a < b ==> !IsSpace(t[a]) && !IsSpace(t[b - 1])
    ensures Strip(t) == t[a..b]
  {
    var a0 := SkipSpace(t, 0);
    if a < b {
      assert a0 == a;
      var b0 := SkipSpaceBack(t, a0, |t|);
      assert b0 == b;
    } else {
      assert a0 == |t|;
    }
  }

  /** A string that neither begins nor ends with whitespace is left as it is. */
  lemma {:induction false} StripKeeps(t: string)
    requires t == [] || (!IsSpace(t[0]) && !IsSpace(t[|t| - 1]))
    ensures Strip(t) == t
  {
    assert t[0..|t|] == t;
    StripUnique(t, 0, |t|);
  }

  /** Whitespace appended at the end does not change the stripped result. */
  lemma {:induction false} StripTrailing(t: string, w: string)
    requires AllSpace(w)
    ensures Strip(t + w) == Strip(t)
  {
    var a: nat, b: nat :| a <= b <= |t| && Strip(t) == t[a..b] && SpaceOutside(t, a, b);
    var tw := t + w;
    assert tw[a..b] == t[a..b];
    var r := Strip(t);
    assert a < b ==> r[0] == t[a] && r[|r| - 1] == t[b - 1];
    assert a < b ==> tw[a] == t[a] && tw[b - 1] == t[b - 1];
    assert SpaceOutside(tw, a, b) by {
      forall j | 0 <= j < |tw| && !(a <= j < b) ensures IsSpace(tw[j]) {
        if j >= |t| { assert tw[j] == w[j - |t|]; } else { assert tw[j] == t[j]; }
      }
    }
    StripUnique(tw, a, b);
  }
}
