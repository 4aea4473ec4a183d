/** Lists whose first element is the most recently used one. */
module RecencyLists {
  import opened Sequences

  /** The element at position k moves to the front. */
  ghost function ToFront<T>(s: seq<T>, k: nat): (r: seq<T>)
    requires k < |s|
    ensures |r| == |s|
    ensures forall j :: 0 <= j < |r| ==> r[j] == if j == 0 then s[k] else if j <= k then s[j - 1] else s[j]
  {
    [s[k]] + s[..k] + s[k + 1..]
  }

  lemma FirstDistinct<T>(q: T, ns: seq<T>)
    requires Distinct(ns) && q !in ns
    ensures Distinct([q] + ns)
  {
  }

  lemma OnlyAt<T>(s: seq<T>, k: nat)
    requires Distinct(s) && k < |s|
    ensures forall j :: 0 <= j < |s| && j != k ==> s[j] != s[k]
  {
  }

  lemma FrontStays<T>(s: seq<T>)
    requires s != []
    ensures ToFront(s, 0) == s
  {
  }

  lemma FirstOf<T>(s: seq<T>, k: nat)
    requires k < |s|
    ensures |ToFront(s, k)| == |s| && ToFront(s, k)[0] == s[k]
  {
  }

  lemma ToFrontDistinct<T>(s: seq<T>, k: nat)
    requires Distinct(s) && k < |s|
    ensures Distinct(ToFront(s, k))
  {
    var r := ToFront(s, k);
    forall i, j | 0 <= i < j < |r| ensures r[i] != r[j] {
      var i', j' := if i == 0 then k else if i <= k then i - 1 else i, if j <= k then j - 1 else j;
      assert s[i'] != s[j'];
    }
  }

  /** Nothing is lost or duplicated. */
  lemma ToFrontPermutes<T>(s: seq<T>, k: nat)
    requires k < |s|
    ensures multiset(ToFront(s, k)) == multiset(s)
  {
    assert s == s[..k] + [s[k]] + s[k + 1..];
  }
}
