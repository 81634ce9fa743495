/**
  The background cleaner: which snapshots of a replica may be deleted, and why
  deleting them is harmless.
*/
module Cleaner {
  import opened Layers
  import opened Volume
  import opened Coalesce

  /** The size is recorded as text; sized says whether it is the text of a number. */
  datatype Disk = Disk(parent: string, removed: bool, userCreated: bool, size: int, sized: bool)

  datatype Snap = Snap(name: string, size: int)

  /** A name without metadata reads as an empty record. */
  function Info(disks: map<string, Disk>, name: string): Disk {
    if name in disks then disks[name] else Disk("", false, false, 0, false)
  }

  /** User-created and not marked as removed. */
  predicate Kept(disks: map<string, Disk>, name: string) {
    Info(disks, name).userCreated && !Info(disks, name).removed
  }

  predicate Deletable(disks: map<string, Disk>, name: string) {
    !Kept(disks, name) && !Kept(disks, Info(disks, name).parent)
  }

  // ---- Sorting by size, stably ----

  predicate BySize(l: seq<Snap>) {
    forall i, j :: 0 <= i < j < |l| ==> l[i].size <= l[j].size
  }

  /** Puts x behind everything that is not larger. */
  function InsertBySize(l: seq<Snap>, x: Snap): (r: seq<Snap>)
    ensures multiset(r) == multiset(l) + multiset{x}
  {
    if l == [] || l[|l| - 1].size <= x.size then l + [x]
    else
      assert l == l[..|l| - 1] + [l[|l| - 1]];
      InsertBySize(l[..|l| - 1], x) + [l[|l| - 1]]
  }

  function StableSort(l: seq<Snap>): (r: seq<Snap>)
    ensures multiset(r) == multiset(l)
  {
    if l == [] then []
    else
      assert l == l[..|l| - 1] + [l[|l| - 1]];
      InsertBySize(StableSort(l[..|l| - 1]), l[|l| - 1])
  }

  lemma {:induction false} InsertKeepsOrder(l: seq<Snap>, x: Snap)
    requires BySize(l)
    ensures BySize(InsertBySize(l, x))
  {
    if l != [] && l[|l| - 1].size > x.size {
      var init := l[..|l| - 1];
      InsertKeepsOrder(init, x);
      var r := InsertBySize(init, x);
      forall k | 0 <= k < |r|
        ensures r[k].size <= l[|l| - 1].size
      {
        InsertAdds(init, x, k);
      }
    }
  }

  lemma InsertAdds(l: seq<Snap>, x: Snap, k: nat)
    requires k < |InsertBySize(l, x)|
    ensures InsertBySize(l, x)[k] == x || InsertBySize(l, x)[k] in l
  {
    var e := InsertBySize(l, x)[k];
    assert e in multiset(InsertBySize(l, x));
    assert e in multiset(l) + multiset{x};
  }

  lemma {:induction false} StableSortSorts(l: seq<Snap>)
    ensures BySize(StableSort(l))
  {
    if l != [] {
      StableSortSorts(l[..|l| - 1]);
      InsertKeepsOrder(StableSort(l[..|l| - 1]), l[|l| - 1]);
    }
  }

  /** The entries of one size, in order. */
  function OfSize(l: seq<Snap>, size: int): seq<Snap> {
    if l == [] then []
    else OfSize(l[..|l| - 1], size) + if l[|l| - 1].size == size then [l[|l| - 1]] else []
  }

  lemma OfSizeSnoc(l: seq<Snap>, x: Snap, size: int)
    ensures OfSize(l + [x], size) == OfSize(l, size) + if x.size == size then [x] else []
  {
    assert (l + [x])[..|l|] == l;
  }

  lemma {:induction false} InsertIsStable(l: seq<Snap>, x: Snap, size: int)
    ensures OfSize(InsertBySize(l, x), size) == OfSize(l, size) + if x.size == size then [x] else []
  {
    if l == [] || l[|l| - 1].size <= x.size {
      OfSizeSnoc(l, x, size);
    } else {
      InsertIsStable(l[..|l| - 1], x, size);
      OfSizeSnoc(InsertBySize(l[..|l| - 1], x), l[|l| - 1], size);
    }
  }

  /** Candidates of equal size keep their order. */
  lemma {:induction false} SortIsStable(l: seq<Snap>, size: int)
    ensures OfSize(StableSort(l), size) == OfSize(l, size)
  {
    if l != [] {
      SortIsStable(l[..|l| - 1], size);
      InsertIsStable(StableSort(l[..|l| - 1]), l[|l| - 1], size);
    }
  }

  function Named(l: seq<Snap>): seq<Snap> {
    if l == [] then []
    else if l[|l| - 1].name == "" then Named(l[..|l| - 1])
    else Named(l[..|l| - 1]) + [l[|l| - 1]]
  }

  lemma NamedSnoc(l: seq<Snap>, x: Snap)
    ensures Named(l + [x]) == if x.name == "" then Named(l) else Named(l) + [x]
  {
    assert (l + [x])[..|l|] == l;
  }

  lemma InsertSnoc(l: seq<Snap>, x: Snap, last: Snap)
    requires last.size > x.size
    ensures InsertBySize(l + [last], x) == InsertBySize(l, x) + [last]
  {
    assert (l + [last])[..|l|] == l;
  }

  lemma {:induction false} InsertNamed(l: seq<Snap>, x: Snap)
    requires BySize(l)
    ensures Named(InsertBySize(l, x)) == if x.name == "" then Named(l) else InsertBySize(Named(l), x)
  {
    if l == [] || l[|l| - 1].size <= x.size {
      NamedSnoc(l, x);
      NamedBounded(l, x.size);
    } else {
      var init, last := l[..|l| - 1], l[|l| - 1];
      assert l == init + [last];
      InsertNamed(init, x);
      NamedSnoc(InsertBySize(init, x), last);
      InsertSnoc(Named(init), x, last);
    }
  }

  lemma {:induction false} NamedBounded(l: seq<Snap>, size: int)
    requires BySize(l) && (l == [] || l[|l| - 1].size <= size)
    ensures Named(l) == [] || Named(l)[|Named(l)| - 1].size <= size
  {
    if l != [] && l[|l| - 1].name == "" {
      NamedBounded(l[..|l| - 1], size);
    }
  }

  /** Dropping the unnamed entries after the sort is the same as never having had them. */
  lemma {:induction false} SortNamed(l: seq<Snap>)
    ensures Named(StableSort(l)) == StableSort(Named(l))
  {
    if l != [] {
      var init, last := l[..|l| - 1], l[|l| - 1];
      SortNamed(init);
      StableSortSorts(init);
      InsertNamed(StableSort(init), last);
      if last.name != "" {
        assert (Named(init) + [last])[..|Named(init)|] == Named(init);
      }
    }
  }

  // ---- The candidates ----

  /** Base first. */
  function Reversed(chain: seq<string>): (r: seq<string>)
    ensures |r| == |chain|
    ensures forall k :: 0 <= k < |r| ==> r[k] == chain[|chain| - 1 - k]
  {
    seq(|chain|, k requires 0 <= k < |chain| => chain[|chain| - 1 - k])
  }

  lemma ReversedMembers(chain: seq<string>, name: string)
    ensures name in Reversed(chain) <==> name in chain
  {
    if name in chain {
      var k :| 0 <= k < |chain| && chain[k] == name;
      assert Reversed(chain)[|chain| - 1 - k] == name;
    }
  }

  /** The deletable snapshots among positions 1, ..., hi - 1, base first. */
  function Candidates(files: seq<string>, disks: map<string, Disk>, hi: nat): seq<Snap>
    requires hi <= |files|
  {
    if hi <= 1 then []
    else Candidates(files, disks, hi - 1)
         + (if Deletable(disks, files[hi - 1]) then [Snap(files[hi - 1], Info(disks, files[hi - 1]).size)] else [])
  }

  /** A name is not that of a user-created snapshot, or it is marked as removed. */
  predicate NotKept(disks: map<string, Disk>, name: string) {
    name in disks && disks[name].userCreated ==> disks[name].removed
  }

  /** The candidates in terms of the records: a disk without a record has no parent of its own. */
  lemma DeletableIff(disks: map<string, Disk>, name: string)
    ensures Deletable(disks, name) <==>
              NotKept(disks, name) && NotKept(disks, if name in disks then disks[name].parent else "")
  {
  }

  lemma {:induction false} CandidatesExact(files: seq<string>, disks: map<string, Disk>, hi: nat, x: Snap)
    requires hi <= |files|
    ensures x in Candidates(files, disks, hi) <==>
              exists k :: 1 <= k < hi && files[k] == x.name && Deletable(disks, files[k]) && x.size == Info(disks, files[k]).size
  {
    if hi > 1 {
      CandidatesExact(files, disks, hi - 1, x);
    }
  }

  /** Position of the checkpoint, or the last position if it is not in the chain. */
  method FindCheckpoint(files: seq<string>, checkpoint: string) returns (indx: nat, found: bool)
    requires |files| > 0
    ensures indx < |files|
    ensures found ==> files[indx] == checkpoint && forall k :: 0 <= k < indx ==> files[k] != checkpoint
    ensures !found ==> checkpoint !in files
  {
    indx, found := 0, false;
    while indx < |files|
      invariant 0 <= indx <= |files|
      invariant forall k :: 0 <= k < indx ==> files[k] != checkpoint
    {
      if files[indx] == checkpoint {
        return indx, true;
      }
      indx := indx + 1;
    }
    indx := |files| - 1;
  }

  /**
    The snapshots that may be deleted, smallest first: above the base, below the
    checkpoint, neither kept themselves nor sitting on a kept one.
  */
  method GetDeleteCandidateChain(chain: seq<string>, disks: map<string, Disk>, checkpoint: string)
    returns (sorted: seq<string>, ok: bool)
    requires "" !in chain
    ensures |chain| <= 3 || checkpoint == "" || checkpoint !in chain ==> ok && sorted == []
    ensures |chain| > 3 && checkpoint != "" && checkpoint in chain ==>
              exists hi :: && IsFirst(Reversed(chain), checkpoint, hi)
                           && (ok <==> AllSized(Reversed(chain), disks, hi))
                           && sorted == if ok then Names(StableSort(Candidates(Reversed(chain), disks, hi))) else []
  {
    if |chain| <= 3 || checkpoint == "" {
      return [], true;
    }
    var files := Reversed(chain);
    ReversedMembers(chain, checkpoint);
    ReversedMembers(chain, "");
    var indx, found := FindCheckpoint(files, checkpoint);
    if indx <= 1 || !found {
      assert found ==> IsFirst(files, checkpoint, indx);
      assert Candidates(files, disks, indx) == [] || !found;
      return [], true;
    }
    var snapList;
    snapList, ok := ListCandidates(files, disks, indx);
    assert IsFirst(files, checkpoint, indx);
    sorted := if ok then Names(Named(StableSort(snapList))) else [];
  }

  /** Every candidate below the given position has a size that can be read. */
  predicate AllSized(files: seq<string>, disks: map<string, Disk>, hi: nat)
    requires hi <= |files|
  {
    forall k :: 1 <= k < hi && Deletable(disks, files[k]) ==> Info(disks, files[k]).sized
  }

  /** A size is missing if and only if a candidate has no record, or one whose size is not a number. */
  lemma AllSizedIff(files: seq<string>, disks: map<string, Disk>, hi: nat)
    requires hi <= |files|
    ensures AllSized(files, disks, hi) <==>
              forall k :: 1 <= k < hi && Deletable(disks, files[k]) ==> files[k] in disks && disks[files[k]].sized
  {
  }

  /** One entry per position, the unused ones unnamed and at the end; a size that cannot be read is an error. */
  method ListCandidates(files: seq<string>, disks: map<string, Disk>, indx: nat) returns (snapList: seq<Snap>, ok: bool)
    requires 1 <= indx <= |files| && "" !in files
    ensures ok <==> AllSized(files, disks, indx)
    ensures ok ==> |snapList| == indx - 1
    ensures ok ==> Named(StableSort(snapList)) == StableSort(Candidates(files, disks, indx))
  {
    var chosen := [];
    var i := 1;
    while i < indx
      invariant 1 <= i <= indx
      invariant chosen == Candidates(files, disks, i)
      invariant |chosen| < i
      invariant AllSized(files, disks, i)
    {
      if Deletable(disks, files[i]) {
        if !Info(disks, files[i]).sized {
          return [], false;
        }
        chosen := chosen + [Snap(files[i], Info(disks, files[i]).size)];
      }
      i := i + 1;
    }
    ok := true;
    var unused := indx - 1 - |chosen|;
    snapList := chosen + Padding(unused);
    PaddingIsIgnored(files, disks, indx, unused, snapList);
  }

  function Padding(n: nat): (r: seq<Snap>)
    ensures |r| == n
  {
    if n == 0 then [] else Padding(n - 1) + [Snap("", 0)]
  }

  lemma PaddingIsIgnored(files: seq<string>, disks: map<string, Disk>, hi: nat, n: nat, snapList: seq<Snap>)
    requires hi <= |files| && "" !in files
    requires snapList == Candidates(files, disks, hi) + Padding(n)
    ensures Named(StableSort(snapList)) == StableSort(Candidates(files, disks, hi))
  {
    var chosen := Candidates(files, disks, hi);
    SortNamed(snapList);
    NamedPadding(chosen, n);
    AllNamed(files, disks, hi);
  }

  predicate IsFirst(files: seq<string>, name: string, hi: nat) {
    hi < |files| && files[hi] == name && forall k :: 0 <= k < hi ==> files[k] != name
  }

  function Names(l: seq<Snap>): (r: seq<string>)
    ensures |r| == |l|
    ensures forall k :: 0 <= k < |r| ==> r[k] == l[k].name
  {
    seq(|l|, k requires 0 <= k < |l| => l[k].name)
  }

  lemma {:induction false} AllNamed(files: seq<string>, disks: map<string, Disk>, hi: nat)
    requires hi <= |files| && "" !in files
    ensures Named(Candidates(files, disks, hi)) == Candidates(files, disks, hi)
  {
    if hi > 1 {
      AllNamed(files, disks, hi - 1);
      var init := Candidates(files, disks, hi - 1);
      var all := Candidates(files, disks, hi);
      if Deletable(disks, files[hi - 1]) {
        assert all[..|all| - 1] == init;
      } else {
        assert all == init;
      }
    }
  }

  lemma {:induction false} NamedPadding(l: seq<Snap>, n: nat)
    ensures Named(l + Padding(n)) == Named(l)
  {
    if n == 0 {
      assert l + Padding(n) == l;
    } else {
      NamedPadding(l, n - 1);
      var blank, shorter := Snap("", 0), l + Padding(n - 1);
      NamedSnoc(shorter, blank);
      assert l + Padding(n) == shorter + [blank];
    }
  }

  // ---- Deleting a candidate is harmless ----

  /** Layer k of the chain is file number k - 1, base first, and parents are the files below. */
  ghost predicate Describes(L: seq<Layer>, files: seq<string>, disks: map<string, Disk>) {
    && |L| == |files| + 1
    && (forall k :: 0 < k < |files| ==> Info(disks, files[k]).parent == files[k - 1])
  }

  /** The live view, the checkpoint's view and the views of kept user-created snapshots have to survive. */
  predicate MustSurvive(files: seq<string>, disks: map<string, Disk>, checkpoint: string, u: nat) {
    && 0 < u <= |files|
    && (u == |files| || files[u - 1] == checkpoint || Kept(disks, files[u - 1]))
  }

  /**
    Every name on the list is that of a layer which can be folded into its parent
    and removed without changing any view that has to survive.
  */
  lemma CandidateIsHarmless(L: seq<Layer>, files: seq<string>, disks: map<string, Disk>, checkpoint: string, hi: nat,
                            x: Snap) returns (i: nat)
    requires Describes(L, files, disks)
    requires IsFirst(files, checkpoint, hi)
    requires x in StableSort(Candidates(files, disks, hi))
    ensures 2 <= i <= hi && files[i - 1] == x.name
    ensures forall u: nat, s: nat :: MustSurvive(files, disks, checkpoint, u) ==>
              View(RemoveLayer(Fold(L, i), i), s, Shift(u, i)) == View(L, s, u)
  {
    var k := CandidatePosition(files, disks, hi, x);
    i := k + 1;
    Harmless(L, files, disks, checkpoint, hi, i);
  }

  lemma Harmless(L: seq<Layer>, files: seq<string>, disks: map<string, Disk>, checkpoint: string, hi: nat, i: nat)
    requires Describes(L, files, disks)
    requires IsFirst(files, checkpoint, hi)
    requires 2 <= i <= hi && Deletable(disks, files[i - 1])
    ensures forall u: nat, s: nat :: MustSurvive(files, disks, checkpoint, u) ==>
              View(RemoveLayer(Fold(L, i), i), s, Shift(u, i)) == View(L, s, u)
  {
    forall u: nat, s: nat | MustSurvive(files, disks, checkpoint, u)
      ensures View(RemoveLayer(Fold(L, i), i), s, Shift(u, i)) == View(L, s, u)
    {
      HarmlessAt(L, files, disks, checkpoint, hi, i, u, s);
    }
  }

  lemma CandidatePosition(files: seq<string>, disks: map<string, Disk>, hi: nat, x: Snap) returns (k: nat)
    requires hi <= |files|
    requires x in StableSort(Candidates(files, disks, hi))
    ensures 1 <= k < hi && files[k] == x.name && Deletable(disks, files[k])
  {
    assert x in multiset(StableSort(Candidates(files, disks, hi)));
    assert x in Candidates(files, disks, hi);
    CandidatesExact(files, disks, hi, x);
    k :| 1 <= k < hi && files[k] == x.name && Deletable(disks, files[k]);
  }

  lemma HarmlessAt(L: seq<Layer>, files: seq<string>, disks: map<string, Disk>, checkpoint: string, hi: nat,
                   i: nat, u: nat, s: nat)
    requires Describes(L, files, disks)
    requires IsFirst(files, checkpoint, hi)
    requires 2 <= i <= hi && Deletable(disks, files[i - 1])
    requires MustSurvive(files, disks, checkpoint, u)
    ensures View(RemoveLayer(Fold(L, i), i), s, Shift(u, i)) == View(L, s, u)
  {
    assert u != i - 1 by {
      assert Info(disks, files[i - 1]).parent == files[i - 2];
    }
    FoldRemoveKeepsViews(L, i, s, u);
  }
}
