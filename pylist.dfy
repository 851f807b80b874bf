/** Python list operations the table models are built on: `del s[i]`,
    `s.insert(i, x)`, `s.remove(x)`, and the two loops the grid editor runs
    over them when it deletes a set of rows and puts them back. */
module PyList {

  /** `del s[i]` for an index inside the list. */
  function DeleteAt<T>(s: seq<T>, i: int): (r: seq<T>)
    requires 0 <= i < |s|
    ensures |r| == |s| - 1
    ensures forall k :: 0 <= k < i ==> r[k] == s[k]
    ensures forall k :: i <= k < |r| ==> r[k] == s[k + 1]
  {
    s[..i] + s[i + 1..]
  }

  /** The position `s.insert(i, x)` puts x at: a negative index counts from
      the end, and the result is clamped to 0 .. |s|. */
  function InsertPos(n: nat, i: int): (j: nat)
    ensures j <= n
    ensures 0 <= i <= n ==> j == i
  {
    if i < 0 then (if n + i < 0 then 0 else n + i) else if i > n then n else i
  }

  /** `s.insert(i, x)`. */
  function InsertAt<T>(s: seq<T>, i: int, x: T): (r: seq<T>)
    ensures |r| == |s| + 1
    ensures r[InsertPos(|s|, i)] == x
    ensures forall k :: 0 <= k < InsertPos(|s|, i) ==> r[k] == s[k]
    ensures forall k :: InsertPos(|s|, i) < k < |r| ==> r[k] == s[k - 1]
  {
    var j := InsertPos(|s|, i);
    s[..j] + [x] + s[j..]
  }

  /** Inserting back what was deleted at the same place restores the list. */
  lemma InsertDeleted<T>(s: seq<T>, i: int)
    requires 0 <= i < |s|
    ensures InsertAt(DeleteAt(s, i), i, s[i]) == s
  {
    var r := InsertAt(DeleteAt(s, i), i, s[i]);
    assert forall k :: 0 <= k < |s| ==> r[k] == s[k];
  }

  /** Deleting at i and then at a later j - 1 deletes the same two elements
      as deleting at j first and then at i. */
  lemma DeleteCommutes<T>(s: seq<T>, i: int, j: int)
    requires 0 <= i < j < |s|
    ensures DeleteAt(DeleteAt(s, j), i) == DeleteAt(DeleteAt(s, i), j - 1)
  {
    var a := DeleteAt(DeleteAt(s, j), i);
    var b := DeleteAt(DeleteAt(s, i), j - 1);
    assert forall k :: 0 <= k < |a| ==> a[k] == b[k];
  }

  /** `s.remove(x)`: drops the first occurrence of x; None where Python
      raises ValueError. */
  function RemoveFirst<T(==)>(s: seq<T>, x: T): (r: seq<T>)
    requires x in s
    ensures |r| == |s| - 1
    ensures multiset(r) == multiset(s) - multiset{x}
  {
    if s[0] == x then
      assert s == [s[0]] + s[1..];
      s[1..]
    else
      assert s == [s[0]] + s[1..];
      [s[0]] + RemoveFirst(s[1..], x)
  }

  /** Removing an element appended at the end of a list that did not hold it
      gives back the list. */
  lemma {:induction false} RemoveAppended<T>(s: seq<T>, x: T)
    requires x !in s
    ensures RemoveFirst(s + [x], x) == s
  {
    if s != [] {
      assert (s + [x])[1..] == s[1..] + [x];
      RemoveAppended(s[1..], x);
      assert s == [s[0]] + s[1..];
    }
  }

  // ------------------------------------------------- deleting a set of rows

  predicate StrictlyAscending(ps: seq<int>)
  {
    forall i, j :: 0 <= i < j < |ps| ==> ps[i] < ps[j]
  }

  predicate AllBelow(ps: seq<int>, n: int)
  {
    forall k :: 0 <= k < |ps| ==> 0 <= ps[k] < n
  }

  /** The loop with a running `minus` counter deletes ps[k] - k at step k;
      it never raises when every step's index lies inside the shrinking
      list. */
  predicate Deletable(ps: seq<int>, n: int)
  {
    forall k :: 0 <= k < |ps| ==> k <= ps[k] < n
  }

  /** The list after `for p in ps: del s[p - minus]; minus += 1`. */
  function DeleteRun<T>(s: seq<T>, ps: seq<int>): (r: seq<T>)
    requires Deletable(ps, |s|)
    ensures |r| == |s| - |ps|
    decreases |ps|
  {
    if ps == [] then s
    else
      var m := |ps| - 1;
      assert Deletable(ps[..m], |s|) by {
        forall k | 0 <= k < m ensures k <= ps[..m][k] < |s| {
          assert ps[..m][k] == ps[k];
        }
      }
      DeleteAt(DeleteRun(s, ps[..m]), ps[m] - m)
  }

  /** The k-th of strictly ascending integers is at least the first plus k. */
  lemma {:induction false} AscendingGap(ps: seq<int>, k: int)
    requires StrictlyAscending(ps) && 0 <= k < |ps|
    ensures ps[k] >= ps[0] + k
  {
    if k > 0 {
      AscendingGap(ps, k - 1);
    }
  }

  /** Strictly ascending positions inside the list can always be deleted. */
  lemma AscendingDeletable(ps: seq<int>, n: int)
    requires StrictlyAscending(ps) && AllBelow(ps, n)
    ensures Deletable(ps, n)
  {
    forall k | 0 <= k < |ps| ensures k <= ps[k] < n {
      AscendingGap(ps, k);
    }
  }

  /** The list without the elements at the original positions ps, removed
      from the highest position down so that no index shifts. */
  function Without<T>(s: seq<T>, ps: seq<int>): (r: seq<T>)
    requires StrictlyAscending(ps) && AllBelow(ps, |s|)
    ensures |r| == |s| - |ps|
    decreases |ps|
  {
    if ps == [] then s
    else
      var rest := Without(s, ps[1..]);
      assert ps[0] < |rest| by {
        AscendingGap(ps, |ps| - 1);
      }
      DeleteAt(rest, ps[0])
  }

  /** Removing positions above i keeps everything up to i in place. */
  lemma {:induction false} WithoutKeepsPrefix<T>(s: seq<T>, ps: seq<int>, i: int)
    requires StrictlyAscending(ps) && AllBelow(ps, |s|)
    requires 0 <= i < |s| && forall k :: 0 <= k < |ps| ==> ps[k] > i
    ensures i < |Without(s, ps)| && Without(s, ps)[i] == s[i]
  {
    if ps != [] {
      var rest := Without(s, ps[1..]);
      WithoutKeepsPrefix(s, ps[1..], i);
      AscendingGap(ps, |ps| - 1);
      assert i < ps[0] < |rest|;
      assert Without(s, ps) == DeleteAt(rest, ps[0]);
    }
  }

  /** Removing one more, higher position after the others is deleting it at
      its position shifted down by the number already removed. */
  lemma {:induction false} WithoutSnoc<T>(s: seq<T>, ps: seq<int>, p: int)
    requires StrictlyAscending(ps + [p]) && AllBelow(ps + [p], |s|)
    ensures StrictlyAscending(ps) && AllBelow(ps, |s|)
    ensures 0 <= p - |ps| < |Without(s, ps)|
    ensures Without(s, ps + [p]) == DeleteAt(Without(s, ps), p - |ps|)
    decreases |ps|
  {
    SnocInit(ps, p, |s|);
    if ps != [] {
      var q, tail := ps[0], ps[1..];
      WithoutCons(s, ps);
      WithoutConsSnoc(s, ps, p);
      WithoutSnoc(s, tail, p);
      DeleteCommutes(Without(s, tail), q, p - |tail|);
    }
  }

  /** Positions ascending up to p: those before p ascend, and p is at
      least their count above the first of them. */
  lemma SnocInit(ps: seq<int>, p: int, n: int)
    requires StrictlyAscending(ps + [p]) && AllBelow(ps + [p], n)
    ensures StrictlyAscending(ps) && AllBelow(ps, n)
    ensures 0 <= |ps| <= p < n && (ps != [] ==> ps[0] + |ps| <= p)
  {
    var qs := ps + [p];
    assert qs[..|ps|] == ps;
    PrefixAscending(qs, |ps|, n);
    AscendingGap(qs, |ps|);
  }

  /** Without unfolded once on positions ending in p: the front position,
      which lies below p shifted down by the others, is removed last. */
  lemma WithoutConsSnoc<T>(s: seq<T>, ps: seq<int>, p: int)
    requires ps != [] && StrictlyAscending(ps + [p]) && AllBelow(ps + [p], |s|)
    ensures StrictlyAscending(ps[1..] + [p]) && AllBelow(ps[1..] + [p], |s|)
    ensures ps[0] < p - (|ps| - 1)
    ensures 0 <= ps[0] < |Without(s, ps[1..] + [p])|
    ensures Without(s, ps + [p]) == DeleteAt(Without(s, ps[1..] + [p]), ps[0])
  {
    var qs := ps + [p];
    assert qs[1..] == ps[1..] + [p];
    WithoutCons(s, qs);
    AscendingGap(qs[1..], |ps| - 1);
    assert qs[1..][|ps| - 1] == p && qs[1..][0] == qs[1];
  }

  /** Without unfolded once: the front position is removed last. */
  lemma WithoutCons<T>(s: seq<T>, ps: seq<int>)
    requires ps != [] && StrictlyAscending(ps) && AllBelow(ps, |s|)
    ensures StrictlyAscending(ps[1..]) && AllBelow(ps[1..], |s|)
    ensures ps[0] < |Without(s, ps[1..])| && Without(s, ps) == DeleteAt(Without(s, ps[1..]), ps[0])
  {
    SuffixAscending(ps, 1, |s|);
    AscendingGap(ps, |ps| - 1);
  }

  /** For strictly ascending positions the running-counter loop removes
      exactly the elements at those original positions. */
  lemma {:induction false} DeleteRunIsWithout<T>(s: seq<T>, ps: seq<int>)
    requires StrictlyAscending(ps) && AllBelow(ps, |s|)
    ensures Deletable(ps, |s|)
    ensures DeleteRun(s, ps) == Without(s, ps)
    decreases |ps|
  {
    AscendingDeletable(ps, |s|);
    if ps != [] {
      var m := |ps| - 1;
      var init := ps[..m];
      assert ps == init + [ps[m]];
      assert forall k :: 0 <= k < m ==> init[k] == ps[k];
      DeleteRunIsWithout(s, init);
      WithoutSnoc(s, init, ps[m]);
    }
  }

  // -------------------------------------------------- putting rows back

  /** What the delete loop captures: each position with the element there,
      taken before anything is deleted. */
  function Captured<T>(s: seq<T>, ps: seq<int>): (caps: seq<(int, T)>)
    requires AllBelow(ps, |s|)
    ensures |caps| == |ps|
    ensures forall k :: 0 <= k < |ps| ==> caps[k] == (ps[k], s[ps[k]])
  {
    seq(|ps|, k requires 0 <= k < |ps| => (ps[k], s[ps[k]]))
  }

  /** The list after `for i, x in caps: s.insert(i, x)`, in capture order. */
  function RestoreRun<T>(s: seq<T>, caps: seq<(int, T)>): (r: seq<T>)
    ensures |r| == |s| + |caps|
    decreases |caps|
  {
    if caps == [] then s
    else
      var m := |caps| - 1;
      InsertAt(RestoreRun(s, caps[..m]), caps[m].0, caps[m].1)
  }

  /** Re-inserting the first k captured elements in ascending order
      leaves the list without only the remaining positions. */
  lemma {:induction false} RestorePartial<T>(s: seq<T>, ps: seq<int>, k: int)
    requires StrictlyAscending(ps) && AllBelow(ps, |s|) && 0 <= k <= |ps|
    ensures StrictlyAscending(ps[k..]) && AllBelow(ps[k..], |s|)
    ensures RestoreRun(Without(s, ps), Captured(s, ps)[..k]) == Without(s, ps[k..])
    decreases k
  {
    SuffixAscending(ps, k, |s|);
    if k > 0 {
      var caps := Captured(s, ps);
      var p := ps[k - 1];
      var w := Without(s, ps[k..]);
      var back := RestoreRun(Without(s, ps), caps[..k - 1]);
      assert p < |w| && back == DeleteAt(w, p) && w[p] == s[p] by {
        RestorePartial(s, ps, k - 1);
        WithoutFirst(s, ps, k);
      }
      assert caps[k - 1] == (p, s[p]);
      RestoreRunPrefix(Without(s, ps), caps, k);
      InsertDeleted(w, p);
    }
  }

  /** The first k re-insertions are the first k - 1 and then the k-th. */
  lemma RestoreRunPrefix<T>(s: seq<T>, caps: seq<(int, T)>, k: int)
    requires 0 < k <= |caps|
    ensures RestoreRun(s, caps[..k]) == InsertAt(RestoreRun(s, caps[..k - 1]), caps[k - 1].0, caps[k - 1].1)
  {
    assert caps[..k][..k - 1] == caps[..k - 1];
  }

  /** A suffix of strictly ascending positions below n is one too. */
  lemma SuffixAscending(ps: seq<int>, k: int, n: int)
    requires StrictlyAscending(ps) && AllBelow(ps, n) && 0 <= k <= |ps|
    ensures StrictlyAscending(ps[k..]) && AllBelow(ps[k..], n)
  {
    assert forall j :: 0 <= j < |ps| - k ==> ps[k..][j] == ps[k + j];
  }

  /** A prefix of strictly ascending positions below n is one too. */
  lemma PrefixAscending(ps: seq<int>, k: int, n: int)
    requires StrictlyAscending(ps) && AllBelow(ps, n) && 0 <= k <= |ps|
    ensures StrictlyAscending(ps[..k]) && AllBelow(ps[..k], n)
  {
    assert forall j :: 0 <= j < k ==> ps[..k][j] == ps[j];
  }

  /** Removing positions ps[k - 1..] removes the later ones and then
      position ps[k - 1], which the later removals left in place. */
  lemma WithoutFirst<T>(s: seq<T>, ps: seq<int>, k: int)
    requires StrictlyAscending(ps) && AllBelow(ps, |s|) && 0 < k <= |ps|
    ensures StrictlyAscending(ps[k - 1..]) && AllBelow(ps[k - 1..], |s|)
    ensures StrictlyAscending(ps[k..]) && AllBelow(ps[k..], |s|)
    ensures var p, w := ps[k - 1], Without(s, ps[k..]);
      p < |w| && w[p] == s[p] && Without(s, ps[k - 1..]) == DeleteAt(w, p)
  {
    SuffixAscending(ps, k - 1, |s|);
    SuffixAscending(ps, k, |s|);
    var p := ps[k - 1];
    var rest := ps[k..];
    assert ps[k - 1..][0] == p && ps[k - 1..][1..] == rest;
    assert forall j :: 0 <= j < |rest| ==> rest[j] > p;
    WithoutKeepsPrefix(s, rest, p);
  }

  /** Restoring, in capture order, the rows the loop deleted at strictly
      ascending positions gives back the original list. */
  lemma RestoreAfterDelete<T>(s: seq<T>, ps: seq<int>)
    requires StrictlyAscending(ps) && AllBelow(ps, |s|)
    ensures Deletable(ps, |s|)
    ensures RestoreRun(DeleteRun(s, ps), Captured(s, ps)) == s
  {
    DeleteRunIsWithout(s, ps);
    RestorePartial(s, ps, |ps|);
    assert Captured(s, ps)[..|ps|] == Captured(s, ps);
    assert ps[|ps|..] == [];
  }

  /** Rows A..J with rows 2, 4 and 6 selected: C, E and G go. */
  lemma DeleteExample()
    ensures Deletable([2, 4, 6], 10)
    ensures DeleteRun("ABCDEFGHIJ", [2, 4, 6]) == "ABDFHIJ"
  {
    var s := "ABCDEFGHIJ";
    var ps := [2, 4, 6];
    assert ps[..0] == [] && ps[..1] == [2] && ps[..2] == [2, 4];
    assert [2][..0] == [] && [2, 4][..1] == [2];
    assert DeleteRun(s, [2]) == "ABDEFGHIJ";
    assert DeleteRun(s, [2, 4]) == "ABDFGHIJ";
  }

  /** The counter assumes ascending positions: given 5 then 2, the loop
      deletes F and then B instead of C, and putting the captured rows back
      duplicates C and loses B. */
  lemma UnsortedDeleteCorrupts()
    ensures Deletable([5, 2], 10)
    ensures DeleteRun("ABCDEFGHIJ", [5, 2]) == "ACDEGHIJ"
    ensures RestoreRun(DeleteRun("ABCDEFGHIJ", [5, 2]), Captured("ABCDEFGHIJ", [5, 2])) == "ACCDEGFHIJ"
  {
    var s := "ABCDEFGHIJ";
    var ps := [5, 2];
    assert ps[..0] == [] && ps[..1] == [5];
    assert [5][..0] == [];
    assert DeleteRun(s, [5]) == "ABCDEGHIJ";
    var caps := Captured(s, ps);
    assert caps == [(5, 'F'), (2, 'C')];
    assert caps[..1] == [(5, 'F')] && caps[..1][..0] == [];
    assert RestoreRun("ACDEGHIJ", caps[..1]) == "ACDEGFHIJ";
    assert InsertAt("ACDEGFHIJ", 2, 'C') == "ACCDEGFHIJ";
  }
}
