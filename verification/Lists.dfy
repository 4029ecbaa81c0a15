// Sequence operations shared by the allocator and the thread lists.
module Lists {

  ghost predicate Distinct<T>(s: seq<T>) {
    forall i, j :: 0 <= i < j < |s| ==> s[i] != s[j]
  }

  function RemoveAt<T>(s: seq<T>, k: nat): seq<T>
    requires k < |s|
  {
    s[..k] + s[k + 1..]
  }

  // The sequence with the elements of [from, from + len) replaced by one value.
  function Mark<T>(s: seq<T>, from: nat, len: nat, value: T): (r: seq<T>)
    requires from + len <= |s|
    ensures |r| == |s|
    ensures forall i :: 0 <= i < |r| ==> r[i] == if from <= i < from + len then value else s[i]
  {
    s[..from] + seq(len, _ => value) + s[from + len..]
  }

  lemma RemovedAt<T>(s: seq<T>, k: nat)
    requires k < |s|
    ensures |RemoveAt(s, k)| == |s| - 1
    ensures forall i :: 0 <= i < |s| - 1 ==> RemoveAt(s, k)[i] == s[if i < k then i else i + 1]
  {}

  // Removing one element of a list without repetition removes that element only.
  lemma RemoveAtDistinct<T>(s: seq<T>, k: nat)
    requires Distinct(s) && k < |s|
    ensures Distinct(RemoveAt(s, k))
    ensures forall u :: u in RemoveAt(s, k) <==> u in s && u != s[k]
  {
    hide RemoveAt;
    RemovedAt(s, k);
    var r := RemoveAt(s, k);
    forall i, j | 0 <= i < j < |r| ensures r[i] != r[j] {
      assert r[i] == s[if i < k then i else i + 1] && r[j] == s[if j < k then j else j + 1];
    }
    forall u | u in s && u != s[k] ensures u in r {
      var i :| 0 <= i < |s| && s[i] == u;
      assert r[if i < k then i else i - 1] == u;
    }
  }

  lemma Others<T>(s: seq<T>, k: nat)
    requires Distinct(s) && k < |s|
    ensures forall i :: 0 <= i < |s| && i != k ==> s[i] != s[k]
  {}
}
