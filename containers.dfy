/** The bounded containers the manager owns: the wait queue (FixedSizeQueue)
    and the region set (FixedSizeSet). Both are ordered sequences here; the
    predicate-based lookups they offer (find_by_lambda, remove_lambda) are
    functions over a sequence and a predicate. */
module Containers {

  datatype Option<T> = None | Some(value: T)

  /** What remove_lambda reports: whether an element matched, that element,
      and the container without it. */
  datatype Removal<T> = Removal(found: bool, elem: Option<T>, rest: seq<T>)

  /** Position of the first element satisfying `p`, if any. */
  function FirstIndex<T>(s: seq<T>, p: T -> bool): (r: Option<nat>)
    ensures r.Some? ==> r.value < |s| && p(s[r.value])
    ensures r.Some? ==> forall j :: 0 <= j < r.value ==> !p(s[j])
    ensures r.None? <==> forall j :: 0 <= j < |s| ==> !p(s[j])
  {
    if s == [] then None
    else if p(s[0]) then Some(0)
    else match FirstIndex(s[1..], p)
      case None => None
      case Some(k) => Some(k + 1)
  }

  /** find_by_lambda: the ordered list of the elements satisfying `p`. */
  function Filter<T(==)>(s: seq<T>, p: T -> bool): (r: seq<T>)
    ensures |r| <= |s|
    ensures forall i :: 0 <= i < |r| ==> p(r[i]) && r[i] in s
    ensures forall i :: 0 <= i < |s| && p(s[i]) ==> s[i] in r
  {
    if s == [] then []
    else if p(s[0]) then [s[0]] + Filter(s[1..], p)
    else Filter(s[1..], p)
  }

  /** find_by_lambda distributes over concatenation: the matches of `s + t`
      are those of `s` followed by those of `t`, in container order. */
  lemma {:induction false} FilterAppend<T>(s: seq<T>, t: seq<T>, p: T -> bool)
    ensures Filter(s + t, p) == Filter(s, p) + Filter(t, p)
  {
    if s == [] {
      assert s + t == t;
    } else {
      assert (s + t)[0] == s[0];
      assert (s + t)[1..] == s[1..] + t;
      FilterAppend(s[1..], t, p);
    }
  }

  /** find_by_lambda on one element keeps it exactly when it matches. */
  lemma FilterOfOne<T>(x: T, p: T -> bool)
    ensures Filter([x], p) == if p(x) then [x] else []
  {
    assert [x][1..] == [];
  }

  /** remove_lambda: drop the first element satisfying `p` and report it. */
  function RemoveFirst<T>(s: seq<T>, p: T -> bool): (r: Removal<T>)
    ensures r.found <==> FirstIndex(s, p).Some?
    ensures !r.found ==> r.elem == None && r.rest == s
    ensures r.found ==>
      var k := FirstIndex(s, p).value;
      r.elem == Some(s[k]) && r.rest == s[..k] + s[k + 1..]
  {
    if s == [] then Removal(false, None, s)
    else if p(s[0]) then Removal(true, Some(s[0]), s[1..])
    else
      var r := RemoveFirst(s[1..], p);
      if r.found then
        var k := FirstIndex(s[1..], p).value;
        ConsDrop(s, k);
        Removal(true, r.elem, [s[0]] + r.rest)
      else
        Removal(false, r.elem, [s[0]] + r.rest)
  }

  /** Putting the head back in front of a tail with one element dropped. */
  lemma ConsDrop<T>(s: seq<T>, k: nat)
    requires k + 1 < |s|
    ensures [s[0]] + (s[1..][..k] + s[1..][k + 1..]) == s[..k + 1] + s[k + 2..]
  {
    assert [s[0]] + s[1..][..k] == s[..k + 1];
  }

  /** can_push / has_place: there is room for one more element. */
  predicate HasPlace<T>(s: seq<T>, capacity: nat) {
    |s| < capacity
  }

  /** can_pop: the container is not empty. */
  predicate CanPop<T>(s: seq<T>) {
    |s| > 0
  }

  /** The first position satisfying `p` is the one all earlier positions fail. */
  lemma FirstIndexIs<T>(s: seq<T>, p: T -> bool, k: nat)
    requires k < |s| && p(s[k])
    requires forall j :: 0 <= j < k ==> !p(s[j])
    ensures FirstIndex(s, p) == Some(k)
  {
  }

  /** remove_lambda drops exactly the first position satisfying `p`. */
  lemma RemoveFirstAt<T>(s: seq<T>, p: T -> bool, k: nat)
    requires k < |s| && p(s[k])
    requires forall j :: 0 <= j < k ==> !p(s[j])
    ensures RemoveFirst(s, p) == Removal(true, Some(s[k]), s[..k] + s[k + 1..])
  {
    FirstIndexIs(s, p, k);
  }

  /** Nothing matches, so find_by_lambda finds nothing. */
  lemma NoMatchFiltersEmpty<T>(s: seq<T>, p: T -> bool)
    requires forall j :: 0 <= j < |s| ==> !p(s[j])
    ensures Filter(s, p) == []
  {
    FilterHeadIsFirstMatch(s, p);
  }

  /** The head of a find_by_lambda result is the element at the first
      matching position, and the result is empty exactly when nothing matches. */
  lemma {:induction false} FilterHeadIsFirstMatch<T>(s: seq<T>, p: T -> bool)
    ensures Filter(s, p) != [] <==> FirstIndex(s, p).Some?
    ensures Filter(s, p) != [] ==> Filter(s, p)[0] == s[FirstIndex(s, p).value]
  {
    if s != [] && !p(s[0]) {
      FilterHeadIsFirstMatch(s[1..], p);
    }
  }
}
