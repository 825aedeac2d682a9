/** The linear scans `min` and `argMin`. */
module Selection {
  import opened Wrappers

  /** `i` is the earliest position of a smallest element of `arr`. */
  ghost predicate IsEarliestMin(arr: seq<real>, i: int) {
    && 0 <= i < |arr|
    && (forall j :: 0 <= j < |arr| ==> arr[i] <= arr[j])
    && (forall j :: 0 <= j < i ==> arr[i] < arr[j])
  }

  /** The index `argMin` settles on after scanning `arr`: -1 for an empty array,
      otherwise the running index, replaced only on a strictly smaller element. */
  function ArgMinOf(arr: seq<real>): (i: int)
    ensures arr == [] ==> i == -1
    ensures arr != [] ==> IsEarliestMin(arr, i)
    decreases |arr|
  {
    if |arr| <= 1 then |arr| - 1
    else
      var i := ArgMinOf(arr[..|arr| - 1]);
      if arr[|arr| - 1] < arr[i] then |arr| - 1 else i
  }

  /** The earliest minimum is unique, so `ArgMinOf`'s contract determines it. */
  lemma EarliestMinIsUnique(arr: seq<real>, i: int, j: int)
    requires IsEarliestMin(arr, i) && IsEarliestMin(arr, j)
    ensures i == j
  {
    assert arr[i] == arr[j];
  }

  /** `argMin(arr)` */
  method ArgMin(arr: seq<real>) returns (idx: int)
    ensures idx == ArgMinOf(arr)
    ensures arr == [] ==> idx == -1
    ensures arr != [] ==> IsEarliestMin(arr, idx)
  {
    if |arr| == 0 {
      return -1;
    }
    var min := arr[0];
    idx := 0;
    for i := 1 to |arr|
      invariant idx == ArgMinOf(arr[..i])
      invariant min == arr[idx]
    {
      assert arr[..i + 1][..i] == arr[..i];
      if arr[i] < min {
        min := arr[i];
        idx := i;
      }
    }
    assert arr[..|arr|] == arr;
  }

  /** `argMin` only compares elements, so two arrays ordered alike share their argMin. */
  lemma {:induction false} ArgMinOfOrderInvariant(a: seq<real>, b: seq<real>)
    requires |a| == |b|
    requires forall i, j :: 0 <= i < |a| && 0 <= j < |a| ==> (a[i] < a[j] <==> b[i] < b[j])
    ensures ArgMinOf(a) == ArgMinOf(b)
  {
    if a != [] {
      var i := ArgMinOf(a);
      assert IsEarliestMin(b, i) by {
        forall j | 0 <= j < |b| ensures b[i] <= b[j] {
          assert !(a[j] < a[i]);
        }
      }
      EarliestMinIsUnique(b, i, ArgMinOf(b));
    }
  }

  /** The value `min` settles on after scanning `arr`: `None` (null) for an empty
      array, otherwise the running minimum, replaced only on a strictly smaller element. */
  function MinOf(arr: seq<int>): (m: Option<int>)
    ensures m.None? <==> arr == []
    ensures m.Some? ==> m.value in arr && forall j :: 0 <= j < |arr| ==> m.value <= arr[j]
    decreases |arr|
  {
    if arr == [] then None
    else
      match MinOf(arr[..|arr| - 1])
      case None => Some(arr[0])
      case Some(v) => if arr[|arr| - 1] < v then Some(arr[|arr| - 1]) else Some(v)
  }

  /** `min(arr)` */
  method Min(arr: seq<int>) returns (m: Option<int>)
    ensures m == MinOf(arr)
    ensures m.None? <==> arr == []
    ensures m.Some? ==> m.value in arr && forall j :: 0 <= j < |arr| ==> m.value <= arr[j]
  {
    if |arr| == 0 {
      return None;
    }
    var min := arr[0];
    assert arr[..1][..0] == [];
    for i := 1 to |arr|
      invariant MinOf(arr[..i]) == Some(min)
    {
      assert arr[..i + 1][..i] == arr[..i];
      if arr[i] < min {
        min := arr[i];
      }
    }
    assert arr[..|arr|] == arr;
    return Some(min);
  }
}
