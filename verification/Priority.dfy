/** The slot array of the CPB read as a boot-priority list (libRSU_ops.c, priority_get/add/remove).
    The array is a log: an add fills the first erased entry, a remove zeroes an entry, and a
    full array is compacted. The last live entry has the highest priority. */
module Priority {
  import opened Bits
  import opened Tables

  // ---- the list a slot array stands for ----

  // live entries, oldest first
  function Live(s: seq<u64>): (r: seq<u64>)
    ensures |r| <= |s|
  {
    if |s| == 0 then []
    else Live(s[..|s| - 1]) + if IsLive(s[|s| - 1]) then [s[|s| - 1]] else []
  }

  // the boot order: live entries, newest first
  function Prio(s: seq<u64>): (r: seq<u64>)
    ensures |r| <= |s|
  {
    if |s| == 0 then []
    else (if IsLive(s[|s| - 1]) then [s[|s| - 1]] else []) + Prio(s[..|s| - 1])
  }

  function IndexOf<T(==)>(s: seq<T>, v: T): (i: nat)
    ensures i <= |s| && (i < |s| ==> s[i] == v)
    ensures forall k :: 0 <= k < i ==> s[k] != v
    ensures i == |s| <==> v !in s
  {
    if |s| == 0 || s[0] == v then 0 else 1 + IndexOf(s[1..], v)
  }

  function Without(s: seq<u64>, v: u64): (r: seq<u64>)
    ensures v !in r
    ensures forall w :: w in r <==> w in s && w != v
  {
    if |s| == 0 then [] else (if s[0] == v then [] else [s[0]]) + Without(s[1..], v)
  }

  ghost predicate NoDup<T>(s: seq<T>) {
    forall i, j :: 0 <= i < j < |s| ==> s[i] != s[j]
  }

  // ---- the invariant of every slot array the library leaves behind ----

  ghost predicate ErasedSuffix(s: seq<u64>) {
    forall i, j :: 0 <= i < j < |s| && s[i] == ERASED_ENTRY ==> s[j] == ERASED_ENTRY
  }

  ghost predicate LiveDistinct(s: seq<u64>) {
    forall i, j :: 0 <= i < j < |s| && IsLive(s[i]) && IsLive(s[j]) ==> s[i] != s[j]
  }

  ghost predicate Wf(s: seq<u64>) {
    ErasedSuffix(s) && LiveDistinct(s)
  }

  // entries written so far: the place of the first erased entry
  function Used(s: seq<u64>): (r: nat)
    ensures r <= |s|
  {
    IndexOf(s, ERASED_ENTRY)
  }

  // ---- what the operations do to the array ----

  function Compacted(s: seq<u64>, v: u64): (r: seq<u64>)
    requires |Live(s)| < |s|
    ensures |r| == |s|
  {
    Live(s) + [v] + seq(|s| - |Live(s)| - 1, _ => ERASED_ENTRY)
  }

  predicate HasRoom(s: seq<u64>) {
    Used(s) < |s| || |Live(s)| < |s|
  }

  function Added(s: seq<u64>, v: u64): (r: seq<u64>)
    requires HasRoom(s)
    ensures |r| == |s|
  {
    if Used(s) < |s| then s[Used(s) := v] else Compacted(s, v)
  }

  function Removed(s: seq<u64>, v: u64): (r: seq<u64>)
    ensures |r| == |s|
  {
    if IndexOf(s, v) < |s| then s[IndexOf(s, v) := SPENT_ENTRY] else s
  }

  // ---- lemmas about Prio ----

  lemma {:induction false} PrioConcat(a: seq<u64>, b: seq<u64>)
    ensures Prio(a + b) == Prio(b) + Prio(a)
  {
    if |b| == 0 {
      assert a + b == a;
    } else {
      var n := |b| - 1;
      var last := if IsLive(b[n]) then [b[n]] else [];
      assert (a + b)[..|a + b| - 1] == a + b[..n];
      PrioConcat(a, b[..n]);
      assert last + (Prio(b[..n]) + Prio(a)) == (last + Prio(b[..n])) + Prio(a);
    }
  }

  lemma PrioSingle(v: u64)
    ensures Prio([v]) == (if IsLive(v) then [v] else [])
    ensures Live([v]) == (if IsLive(v) then [v] else [])
  {
    assert [v][..0] == [];
    assert Prio([]) == [] && Live([]) == [];
  }

  lemma {:induction false} PrioNoLive(s: seq<u64>)
    requires forall i :: 0 <= i < |s| ==> !IsLive(s[i])
    ensures Prio(s) == [] && Live(s) == []
  {
    if |s| > 0 { PrioNoLive(s[..|s| - 1]); }
  }

  lemma {:induction false} PrioOfLive(s: seq<u64>)
    ensures Prio(Live(s)) == Prio(s)
    ensures forall i :: 0 <= i < |Live(s)| ==> IsLive(Live(s)[i]) && Live(s)[i] in s
  {
    if |s| > 0 {
      var last := s[|s| - 1];
      PrioOfLive(s[..|s| - 1]);
      PrioSingle(last);
      PrioConcat(Live(s[..|s| - 1]), if IsLive(last) then [last] else []);
    }
  }

  lemma PrioUpdate(s: seq<u64>, x: nat, v: u64)
    requires x < |s|
    ensures Prio(s[x := v]) == Prio(s[x + 1..]) + Prio([v]) + Prio(s[..x])
    ensures Prio(s) == Prio(s[x + 1..]) + Prio([s[x]]) + Prio(s[..x])
  {
    assert s[x := v] == s[..x] + ([v] + s[x + 1..]);
    PrioConcat(s[..x], [v] + s[x + 1..]);
    PrioConcat([v], s[x + 1..]);
    assert s == s[..x] + ([s[x]] + s[x + 1..]);
    PrioConcat(s[..x], [s[x]] + s[x + 1..]);
    PrioConcat([s[x]], s[x + 1..]);
  }

  lemma {:induction false} PrioMembers(s: seq<u64>, v: u64)
    ensures v in Prio(s) <==> IsLive(v) && v in s
    ensures v in Live(s) <==> IsLive(v) && v in s
    ensures |Live(s)| == |Prio(s)|
  {
    if |s| > 0 {
      PrioMembers(s[..|s| - 1], v);
      assert s == s[..|s| - 1] + [s[|s| - 1]];
    }
  }

  lemma {:induction false} PrioNoDup(s: seq<u64>)
    requires LiveDistinct(s)
    ensures NoDup(Prio(s)) && NoDup(Live(s))
  {
    if |s| > 0 {
      PrioNoDup(s[..|s| - 1]);
      PrioMembers(s[..|s| - 1], s[|s| - 1]);
    }
  }

  lemma {:induction false} WithoutAbsent(s: seq<u64>, v: u64)
    requires v !in s
    ensures Without(s, v) == s
  {
    if |s| > 0 { WithoutAbsent(s[1..], v); }
  }

  lemma {:induction false} WithoutMiddle(a: seq<u64>, v: u64, b: seq<u64>)
    requires v !in a && v !in b
    ensures Without(a + [v] + b, v) == a + b
  {
    var s := a + [v] + b;
    if |a| == 0 {
      assert s[1..] == b && a + b == b;
      WithoutAbsent(b, v);
    } else {
      assert s[1..] == a[1..] + [v] + b;
      WithoutMiddle(a[1..], v, b);
    }
  }

  // ---- the operations refine a priority list ----

  lemma CompactedPrio(s: seq<u64>, v: u64)
    requires IsLive(v) && |Live(s)| < |s|
    ensures Prio(Compacted(s, v)) == [v] + Prio(s)
  {
    var tail := seq(|s| - |Live(s)| - 1, _ => ERASED_ENTRY);
    PrioConcat(Live(s) + [v], tail);
    PrioNoLive(tail);
    PrioConcat(Live(s), [v]);
    PrioSingle(v);
    PrioOfLive(s);
    assert [] + Prio(Live(s) + [v]) == Prio(Live(s) + [v]);
  }

  lemma FilledPrio(s: seq<u64>, x: nat, v: u64)
    requires x < |s| && IsLive(v) && forall i :: x <= i < |s| ==> s[i] == ERASED_ENTRY
    ensures Prio(s[x := v]) == [v] + Prio(s)
  {
    hide Prio, Live;
    PrioUpdate(s, x, v);
    PrioSingle(v);
    PrioSingle(ERASED_ENTRY);
    PrioNoLive(s[x + 1..]);
  }

  /** An add puts the entry at the front of the list, on the fast path and when it compacts. */
  lemma AddIsFront(s: seq<u64>, v: u64)
    requires ErasedSuffix(s) && IsLive(v) && HasRoom(s)
    ensures Prio(Added(s, v)) == [v] + Prio(s)
  {
    if Used(s) < |s| {
      FilledPrio(s, Used(s), v);
    } else {
      CompactedPrio(s, v);
    }
  }

  lemma AddKeepsWf(s: seq<u64>, v: u64)
    requires Wf(s) && IsLive(v) && HasRoom(s) && v !in s
    ensures Wf(Added(s, v))
    ensures Used(s) < |s| ==> Used(Added(s, v)) == Used(s) + 1
    ensures Used(s) == |s| ==> Used(Added(s, v)) == |Prio(s)| + 1
  {
    if Used(s) < |s| {
      FillKeepsWf(s, v);
    } else {
      CompactKeepsWf(s, v);
    }
  }

  // the fast path: the first erased entry
  lemma FillKeepsWf(s: seq<u64>, v: u64)
    requires Wf(s) && IsLive(v) && v !in s && Used(s) < |s|
    ensures Wf(Added(s, v)) && Used(Added(s, v)) == Used(s) + 1
  {
    hide Live, Prio;
    var r, n := Added(s, v), Used(s) + 1;
    assert ErasedSuffix(r) && LiveDistinct(r);
    assert forall i :: 0 <= i < n ==> r[i] != ERASED_ENTRY;
    assert n < |r| ==> r[n] == ERASED_ENTRY;
  }

  // the compacting path: the live entries, then the new one
  lemma CompactKeepsWf(s: seq<u64>, v: u64)
    requires Wf(s) && IsLive(v) && HasRoom(s) && v !in s && Used(s) == |s|
    ensures Wf(Added(s, v)) && Used(Added(s, v)) == |Prio(s)| + 1
  {
    hide Prio, Live;
    PrioOfLive(s);
    PrioNoDup(s);
    PrioMembers(s, v);
    PaddedWf(Live(s), v, |s| - |Live(s)| - 1);
  }

  // Distinct live entries, a new one and erased entries.
  lemma PaddedWf(l: seq<u64>, v: u64, n: nat)
    requires NoDup(l) && (forall i :: 0 <= i < |l| ==> IsLive(l[i])) && IsLive(v) && v !in l
    ensures var r := l + [v] + seq(n, _ => ERASED_ENTRY); Wf(r) && Used(r) == |l| + 1
  {
    var r := l + [v] + seq(n, _ => ERASED_ENTRY);
    assert forall i :: 0 <= i < |l| ==> r[i] == l[i];
    assert forall i :: |l| < i < |r| ==> r[i] == ERASED_ENTRY;
    assert forall i :: 0 <= i < |l| + 1 ==> r[i] != ERASED_ENTRY;
    assert |l| + 1 < |r| ==> r[|l| + 1] == ERASED_ENTRY;
  }

  lemma OnlyAt(s: seq<u64>, x: nat)
    requires LiveDistinct(s) && x < |s| && IsLive(s[x])
    ensures s[x] !in s[..x] && s[x] !in s[x + 1..]
  {
  }

  lemma SpendAt(s: seq<u64>, x: nat)
    requires x < |s| && IsLive(s[x])
    ensures Prio(s) == Prio(s[x + 1..]) + [s[x]] + Prio(s[..x])
    ensures Prio(s[x := SPENT_ENTRY]) == Prio(s[x + 1..]) + Prio(s[..x])
  {
    hide Prio, Live;
    PrioUpdate(s, x, SPENT_ENTRY);
    PrioSingle(SPENT_ENTRY);
    PrioSingle(s[x]);
    assert Prio(s[x + 1..]) + [] == Prio(s[x + 1..]);
  }

  /** A remove deletes exactly the entry and keeps the order of the others; removing a marker value changes
      no order. */
  lemma RemoveIsWithout(s: seq<u64>, v: u64)
    requires LiveDistinct(s)
    ensures Prio(Removed(s, v)) == Without(Prio(s), v)
  {
    PrioMembers(s, v);
    var x := IndexOf(s, v);
    if !IsLive(v) {
      WithoutAbsent(Prio(s), v);
      if x < |s| {
        PrioUpdate(s, x, SPENT_ENTRY);
        PrioSingle(SPENT_ENTRY);
        PrioSingle(v);
      }
    } else if x < |s| {
      OnlyAt(s, x);
      SpendAt(s, x);
      PrioMembers(s[x + 1..], v);
      PrioMembers(s[..x], v);
      WithoutMiddle(Prio(s[x + 1..]), v, Prio(s[..x]));
    } else {
      WithoutAbsent(Prio(s), v);
    }
  }

  lemma RemoveKeepsWf(s: seq<u64>, v: u64)
    requires Wf(s) && IsLive(v)
    ensures Wf(Removed(s, v)) && v !in Removed(s, v)
    ensures Used(Removed(s, v)) == Used(s)
  {
    var x, r, u := IndexOf(s, v), Removed(s, v), Used(s);
    if x < |s| {
      forall i | 0 <= i < |r| ensures r[i] != v {
        assert i < x ==> s[i] != v;
      }
      assert forall i :: 0 <= i < u ==> r[i] != ERASED_ENTRY;
      assert u < |s| ==> r[u] == ERASED_ENTRY;
    }
  }

  // Markers keep the array well formed.
  lemma RemoveMarkerKeepsWf(s: seq<u64>, v: u64)
    requires Wf(s) && !IsLive(v)
    ensures Wf(Removed(s, v))
  {
  }

  lemma AddMarkerKeepsWf(s: seq<u64>, v: u64)
    requires Wf(s) && !IsLive(v) && HasRoom(s)
    ensures Wf(Added(s, v))
  {
    hide Prio, Live;
    if Used(s) == |s| {
      PrioOfLive(s);
      PrioNoDup(s);
      MarkerPadded(Live(s), v, |s| - |Live(s)| - 1);
    }
  }

  lemma MarkerPadded(l: seq<u64>, v: u64, n: nat)
    requires NoDup(l) && (forall i :: 0 <= i < |l| ==> IsLive(l[i])) && !IsLive(v)
    ensures Wf(l + [v] + seq(n, _ => ERASED_ENTRY))
  {
    var r := l + [v] + seq(n, _ => ERASED_ENTRY);
    assert forall i :: 0 <= i < |l| ==> r[i] == l[i];
    assert forall i :: |l| < i < |r| ==> r[i] == ERASED_ENTRY;
    assert r[|l|] == v;
  }

  /** Disabling and re-adding (rsu_slot_enable) is move-to-front. */
  lemma EnableIsMoveToFront(s: seq<u64>, v: u64)
    requires Wf(s) && IsLive(v) && HasRoom(Removed(s, v))
    ensures Prio(Added(Removed(s, v), v)) == [v] + Without(Prio(s), v)
    ensures Wf(Added(Removed(s, v), v))
  {
    RemoveIsWithout(s, v);
    RemoveKeepsWf(s, v);
    AddIsFront(Removed(s, v), v);
    AddKeepsWf(Removed(s, v), v);
  }

  // a compaction that adds an offset doubling as a marker
  lemma CompactedUnseen(s: seq<u64>, v: u64)
    requires !IsLive(v) && |Live(s)| < |s|
    ensures Prio(Compacted(s, v)) == Prio(s)
  {
    var tail := seq(|s| - |Live(s)| - 1, _ => ERASED_ENTRY);
    assert Compacted(s, v) == Live(s) + ([v] + tail);
    PrioConcat(Live(s), [v] + tail);
    PrioNoLive([v] + tail);
    PrioOfLive(s);
  }

  /** Adding an offset that doubles as a marker is invisible, on the fast path and when it compacts: the
      new entry reads as erased or spent. An added partition becomes first exactly when its offset is
      neither. */
  lemma AddVisibleIff(s: seq<u64>, v: u64)
    requires ErasedSuffix(s) && HasRoom(s)
    ensures (Prio(Added(s, v)) == [v] + Prio(s)) <==> IsLive(v)
    ensures !IsLive(v) ==> Prio(Added(s, v)) == Prio(s)
  {
    if IsLive(v) {
      AddIsFront(s, v);
    } else if Used(s) < |s| {
      PrioUpdate(s, Used(s), v);
      PrioSingle(v);
      PrioSingle(ERASED_ENTRY);
    } else {
      CompactedUnseen(s, v);
    }
  }

  // ---- positions in the list ----

  lemma PrioPushed(s: seq<u64>, n: nat)
    requires n < |s|
    ensures Prio(s[n..]) == Prio(s[n + 1..]) + if IsLive(s[n]) then [s[n]] else []
  {
    assert s[n..] == [s[n]] + s[n + 1..];
    PrioConcat([s[n]], s[n + 1..]);
    PrioSingle(s[n]);
  }

  lemma PrioSplit(s: seq<u64>, n: nat)
    requires n < |s| && IsLive(s[n])
    ensures Prio(s) == Prio(s[n + 1..]) + [s[n]] + Prio(s[..n])
  {
    SpendAt(s, n);
  }

  lemma {:induction false} FirstIndex(a: seq<u64>, v: u64, b: seq<u64>)
    requires v !in a
    ensures IndexOf(a + [v] + b, v) == |a| && v in a + [v] + b
  {
    if |a| > 0 {
      assert (a + [v] + b)[1..] == a[1..] + [v] + b;
      FirstIndex(a[1..], v, b);
    }
  }

  // The last entry that holds v decides its place.
  lemma PrioPlace(s: seq<u64>, n: nat, v: u64)
    requires n < |s| && IsLive(v) && s[n] == v && v !in Prio(s[n + 1..])
    ensures v in Prio(s) && IndexOf(Prio(s), v) == |Prio(s[n + 1..])|
  {
    hide Prio, IndexOf;
    PrioSplit(s, n);
    FirstIndex(Prio(s[n + 1..]), v, Prio(s[..n]));
  }

  // ---- capacity and flash wear ----

  lemma {:induction false} NoDupFits(s: seq<u64>, all: set<u64>)
    requires NoDup(s) && forall v :: v in s ==> v in all
    ensures |s| <= |all|
  {
    if |s| > 0 {
      var v := s[0];
      NoDupFits(s[1..], all - {v});
    }
  }

  ghost predicate LiveWithin(slots: seq<u64>, offsets: set<u64>) {
    forall w :: w in slots && IsLive(w) ==> w in offsets
  }

  // A live offset is not in the array.
  predicate Absent(slots: seq<u64>, v: u64) {
    IsLive(v) ==> v !in slots
  }

  /** Live entries are distinct members of `offsets`, so with at most 127 offsets the compaction
      always finds room and leaves at most 127 of the 508 entries used. */
  lemma NeverRunsOut(s: seq<u64>, v: u64, offsets: set<u64>)
    requires Wf(s) && |s| == CPB_NSLOTS
    requires LiveWithin(s, offsets) && |offsets| <= MAX_PARTITIONS
    ensures |Prio(s)| <= MAX_PARTITIONS && HasRoom(s)
    ensures v in offsets && Absent(s, v) && Used(s) == |s| ==> Used(Added(s, v)) <= MAX_PARTITIONS
  {
    PrioNoDup(s);
    forall w | w in Prio(s) ensures w in offsets && (Absent(s, v) ==> w != v) {
      PrioMembers(s, w);
    }
    PrioMembers(s, v);
    NoDupFits(Prio(s), offsets);
    if v in offsets && Absent(s, v) && Used(s) == |s| {
      NoDupFits(Prio(s), offsets - {v});
      CompactedUsed(s, v);
    }
  }

  // A compaction uses the live entries' places and one more at most.
  lemma CompactedUsed(s: seq<u64>, v: u64)
    requires |Live(s)| < |s|
    ensures Used(Compacted(s, v)) <= |Prio(s)| + 1
  {
    hide Prio, Live;
    PrioMembers(s, v);
    PrioOfLive(s);
    var r, n := Compacted(s, v), |Live(s)|;
    assert n + 1 < |r| ==> r[n + 1] == ERASED_ENTRY;
  }

  // The fast path uses one entry up, unless it writes what is there.
  lemma FilledUsed(s: seq<u64>, v: u64)
    requires ErasedSuffix(s) && Used(s) < |s|
    ensures Used(Added(s, v)) == Used(s) + if v == ERASED_ENTRY then 0 else 1
  {
    var r, n := Added(s, v), Used(s) + 1;
    if v == ERASED_ENTRY {
      assert r == s;
    } else {
      assert forall i :: 0 <= i < n ==> r[i] != ERASED_ENTRY;
      assert n < |r| ==> r[n] == ERASED_ENTRY;
    }
  }

  // A removal uses no entry up, unless an erased one is taken for the offset's.
  lemma RemovedUsed(s: seq<u64>, v: u64)
    requires ErasedSuffix(s)
    ensures Used(Removed(s, v)) == Used(s) + if v == ERASED_ENTRY && Used(s) < |s| then 1 else 0
  {
    var x, r, u := IndexOf(s, v), Removed(s, v), Used(s);
    if x < |s| {
      assert forall i :: 0 <= i < u ==> r[i] != ERASED_ENTRY;
      assert u < |s| ==> r[u] == if x == u then SPENT_ENTRY else ERASED_ENTRY;
      assert u + 1 < |s| ==> r[u + 1] == ERASED_ENTRY;
    }
  }

  // the slot array, and the offsets of the partitions the table lists
  datatype Boot = Boot(slots: seq<u64>, offsets: set<u64>)

  datatype Op =
    | Add(offset: u64)
    | Remove(offset: u64)
    | EditTable(offsets: set<u64>) // a partition is created, renamed or deleted

  function Apply(s: Boot, op: Op): Boot
    requires HasRoom(s.slots)
  {
    match op
    case Add(v) => s.(slots := Added(s.slots, v))
    case Remove(v) => s.(slots := Removed(s.slots, v))
    case EditTable(offsets) => s.(offsets := offsets)
  }

  // The slot API adds and removes offsets of partitions only, marker values among them, and adds no live
  // one twice; it takes an offset out of the slot array before it takes the partition out of the table.
  ghost predicate Allowed(s: Boot, op: Op) {
    match op
    case Add(v) => v in s.offsets && Absent(s.slots, v)
    case Remove(v) => v in s.offsets
    case EditTable(offsets) => |offsets| <= MAX_PARTITIONS && LiveWithin(s.slots, offsets)
  }

  ghost predicate ApiState(s: Boot) {
    && Wf(s.slots) && |s.slots| == CPB_NSLOTS
    && |s.offsets| <= MAX_PARTITIONS && LiveWithin(s.slots, s.offsets)
  }

  lemma AddedWithin(s: seq<u64>, v: u64, offsets: set<u64>)
    requires LiveWithin(s, offsets) && v in offsets && HasRoom(s)
    ensures LiveWithin(Added(s, v), offsets)
  {
    hide Live, Used;
    PrioOfLive(s);
  }

  lemma RemovedWithin(s: seq<u64>, v: u64, offsets: set<u64>)
    requires LiveWithin(s, offsets)
    ensures LiveWithin(Removed(s, v), offsets)
  {
  }

  lemma AnyAddKeepsWf(s: seq<u64>, v: u64)
    requires Wf(s) && HasRoom(s) && Absent(s, v)
    ensures Wf(Added(s, v))
  {
    hide Wf, Added, HasRoom;
    if IsLive(v) {
      AddKeepsWf(s, v);
    } else {
      AddMarkerKeepsWf(s, v);
    }
  }

  lemma AnyRemoveKeepsWf(s: seq<u64>, v: u64)
    requires Wf(s)
    ensures Wf(Removed(s, v)) && Absent(Removed(s, v), v)
  {
    hide Wf, Removed;
    if IsLive(v) {
      RemoveKeepsWf(s, v);
    } else {
      RemoveMarkerKeepsWf(s, v);
    }
  }

  lemma ApplyKeepsApiState(s: Boot, op: Op)
    requires ApiState(s) && Allowed(s, op)
    ensures HasRoom(s.slots) && ApiState(Apply(s, op))
  {
    hide Wf, LiveWithin, HasRoom, Added, Removed, Used, Absent;
    NeverRunsOut(s.slots, 0, s.offsets);
    match op
    case Add(v) =>
      AnyAddKeepsWf(s.slots, v);
      AddedWithin(s.slots, v, s.offsets);
    case Remove(v) =>
      AnyRemoveKeepsWf(s.slots, v);
      RemovedWithin(s.slots, v, s.offsets);
    case EditTable(_) =>
  }

  // every state of a run of operations, whatever partitions come and go
  ghost predicate ApiRun(run: seq<Boot>, ops: seq<Op>) {
    && |run| == |ops| + 1 && ApiState(run[0])
    && forall i :: 0 <= i < |ops| ==>
      Allowed(run[i], ops[i]) && HasRoom(run[i].slots) && run[i + 1] == Apply(run[i], ops[i])
  }

  // the operations lead from one state to the other
  ghost predicate Reached(s: Boot, ops: seq<Op>, t: Boot) {
    exists run: seq<Boot> :: ApiRun(run, ops) && run[0] == s && run[|ops|] == t
  }

  lemma ReachedNow(s: Boot)
    requires ApiState(s)
    ensures Reached(s, [], s)
  {
    assert ApiRun([s], []);
  }

  lemma ReachedBy(s: Boot, op: Op)
    requires ApiState(s) && Allowed(s, op)
    ensures HasRoom(s.slots) && Reached(s, [op], Apply(s, op)) && ApiState(Apply(s, op))
  {
    hide ApiState, Allowed, HasRoom, Apply;
    ApplyKeepsApiState(s, op);
    assert ApiRun([s, Apply(s, op)], [op]);
  }

  lemma ReachedOne(s: Boot, op: Op, t: Boot)
    requires Reached(s, [op], t)
    ensures ApiState(s) && Allowed(s, op) && HasRoom(s.slots) && t == Apply(s, op)
  {
  }

  lemma ReachedTwo(s: Boot, a: Op, b: Op, t: Boot)
    requires Reached(s, [a, b], t)
    ensures ApiState(s) && Allowed(s, a) && HasRoom(s.slots)
    ensures ApiState(Apply(s, a)) && Reached(s, [a], Apply(s, a)) && Reached(Apply(s, a), [b], t)
  {
    hide ApiState, Allowed, HasRoom, Apply;
    var run: seq<Boot> :| ApiRun(run, [a, b]) && run[0] == s && run[2] == t;
    assert run[0 + 1] == Apply(run[0], [a, b][0]) && run[1 + 1] == Apply(run[1], [a, b][1]);
    RunKeepsApiState(run, [a, b], 1);
    assert ApiRun([s, run[1]], [a]) && ApiRun([run[1], t], [b]);
  }

  // a run that ends in this state
  ghost predicate RunTo(run: seq<Boot>, ops: seq<Op>, t: Boot) {
    |run| == |ops| + 1 && ApiRun(run, ops) && run[|ops|] == t
  }

  lemma RunFrom(s: Boot)
    requires ApiState(s)
    ensures RunTo([s], [], s)
  {
  }

  // one more step of a run
  lemma RunThen(run: seq<Boot>, ops: seq<Op>, s: Boot, op: Op, t: Boot)
    requires RunTo(run, ops, s) && Reached(s, [op], t)
    ensures RunTo(run + [t], ops + [op], t)
  {
    hide ApiState, Allowed, HasRoom, Apply;
    ReachedOne(s, op, t);
  }

  // an edit of the table
  lemma ReachedByEdit(s: Boot, t: Boot)
    requires ApiState(s) && ApiState(t) && s.slots == t.slots
    ensures Reached(s, [EditTable(t.offsets)], t)
  {
    hide Wf, LiveWithin;
    ReachedBy(s, EditTable(t.offsets));
  }

  lemma ReachedThen(s: Boot, a: seq<Op>, t: Boot, b: seq<Op>, u: Boot)
    requires Reached(s, a, t) && Reached(t, b, u)
    ensures Reached(s, a + b, u)
  {
    hide ApiState, Allowed, HasRoom, Apply;
    var r: seq<Boot> :| ApiRun(r, a) && r[0] == s && r[|a|] == t;
    var q: seq<Boot> :| ApiRun(q, b) && q[0] == t && q[|b|] == u;
    var run := r + q[1..];
    assert |r| == |a| + 1 && |q| == |b| + 1;
    forall i | 0 <= i <= |a| ensures run[i] == r[i] {}
    forall i | |a| <= i < |run| ensures run[i] == q[i - |a|] {}
    forall i | 0 <= i < |a + b|
      ensures Allowed(run[i], (a + b)[i]) && HasRoom(run[i].slots) && run[i + 1] == Apply(run[i], (a + b)[i])
    {
      if i < |a| {
        assert Allowed(r[i], a[i]);
      } else {
        assert Allowed(q[i - |a|], b[i - |a|]);
      }
    }
    assert ApiRun(run, a + b);
  }

  predicate Compacts(s: Boot, op: Op) {
    op.Add? && Used(s.slots) == |s.slots|
  }

  function Adds(ops: seq<Op>): nat {
    if |ops| == 0 then 0 else Adds(ops[..|ops| - 1]) + if ops[|ops| - 1].Add? then 1 else 0
  }

  // The operation uses up an entry that looks erased: an add of any other value, or a removal that takes one
  // for the offset's own.
  predicate Spends(op: Op) {
    match op
    case Add(v) => v != ERASED_ENTRY
    case Remove(v) => v == ERASED_ENTRY
    case EditTable(_) => false
  }

  function Spent(ops: seq<Op>): nat {
    if |ops| == 0 then 0 else Spent(ops[..|ops| - 1]) + if Spends(ops[|ops| - 1]) then 1 else 0
  }

  lemma {:induction false} RunKeepsApiState(run: seq<Boot>, ops: seq<Op>, n: nat)
    requires ApiRun(run, ops) && n <= |ops|
    ensures ApiState(run[n]) && HasRoom(run[n].slots)
  {
    if n > 0 {
      RunKeepsApiState(run, ops, n - 1);
      ApplyKeepsApiState(run[n - 1], ops[n - 1]);
    }
    NeverRunsOut(run[n].slots, 0, run[n].offsets);
  }

  // Without a compaction, an operation uses up at most the entry it spends.
  lemma UsedStep(s: Boot, op: Op)
    requires ApiState(s) && Allowed(s, op) && HasRoom(s.slots) && !Compacts(s, op)
    ensures Used(Apply(s, op).slots) <= Used(s.slots) + if Spends(op) then 1 else 0
  {
    match op
    case Add(v) => FilledUsed(s.slots, v);
    case Remove(v) => RemovedUsed(s.slots, v);
    case EditTable(_) =>
  }

  lemma {:induction false} UsedGrows(run: seq<Boot>, ops: seq<Op>)
    requires ApiRun(run, ops)
    requires forall i :: 0 <= i < |ops| ==> !Compacts(run[i], ops[i])
    ensures Used(run[|ops|].slots) <= Used(run[0].slots) + Spent(ops)
  {
    hide Used, Compacts, Allowed, ApiState, HasRoom, Apply, Spends;
    if |ops| > 0 {
      var n := |ops| - 1;
      assert ApiRun(run[..n + 1], ops[..n]);
      UsedGrows(run[..n + 1], ops[..n]);
      RunKeepsApiState(run, ops, n);
      UsedStep(run[n], ops[n]);
    }
  }

  // Where no partition stands at 2^64-1, only adds spend entries.
  lemma {:induction false} SpentByAdds(run: seq<Boot>, ops: seq<Op>)
    requires ApiRun(run, ops) && forall i :: 0 <= i < |ops| ==> ERASED_ENTRY !in run[i].offsets
    ensures Spent(ops) == Adds(ops)
  {
    hide ApiState, HasRoom, Apply;
    if |ops| > 0 {
      var n := |ops| - 1;
      assert ApiRun(run[..n + 1], ops[..n]);
      SpentByAdds(run[..n + 1], ops[..n]);
      assert Allowed(run[n], ops[n]);
    }
  }

  // a compaction, operations that do not compact, and the next compaction
  ghost predicate TwoCompactions(run: seq<Boot>, ops: seq<Op>) {
    && ApiRun(run, ops) && |ops| >= 2
    && Compacts(run[0], ops[0]) && Compacts(run[|ops| - 1], ops[|ops| - 1])
    && forall i :: 0 < i < |ops| - 1 ==> !Compacts(run[i], ops[i])
  }

  // all operations but the first and the last
  function Middle(ops: seq<Op>): seq<Op> {
    if |ops| < 2 then [] else ops[1..|ops| - 1]
  }

  /** Flash wear: at least 381 entries are spent between any two consecutive compactions. If no partition
      stands at 2^64-1 meanwhile, each was spent by an add. */
  lemma CompactionsAreRare(run: seq<Boot>, ops: seq<Op>)
    requires TwoCompactions(run, ops)
    ensures Spent(Middle(ops)) >= CPB_NSLOTS - MAX_PARTITIONS == 381
    ensures (forall i :: 0 < i < |ops| - 1 ==> ERASED_ENTRY !in run[i].offsets) ==> Adds(Middle(ops)) >= 381
  {
    hide Used, Allowed, HasRoom, Spends;
    var n, mid, states := |ops| - 1, Middle(ops), run[1..|ops|];
    assert Allowed(run[0], ops[0]) && run[1] == Apply(run[0], ops[0]);
    FirstCompaction(run[0], ops[0]);
    RunKeepsApiState(run, ops, 1);
    forall i | 0 <= i < |mid|
      ensures states[i] == run[i + 1] && mid[i] == ops[i + 1] && !Compacts(states[i], mid[i])
      ensures Allowed(states[i], mid[i]) && HasRoom(states[i].slots) && states[i + 1] == Apply(states[i], mid[i])
    {
    }
    assert ApiRun(states, mid);
    UsedGrows(states, mid);
    RunKeepsApiState(run, ops, n);
    if forall i :: 0 < i < |ops| - 1 ==> ERASED_ENTRY !in run[i].offsets {
      SpentByAdds(states, mid);
    }
  }

  lemma FirstCompaction(s: Boot, op: Op)
    requires ApiState(s) && Allowed(s, op) && HasRoom(s.slots) && Compacts(s, op)
    ensures Used(Apply(s, op).slots) <= MAX_PARTITIONS
  {
    NeverRunsOut(s.slots, op.offset, s.offsets);
  }

  // ---- wear without adds ----

  // k entries taken for those of a slot at 2^64-1
  function Worn(k: nat, offsets: set<u64>): Boot {
    Boot(seq(CPB_NSLOTS, i => if i < k then SPENT_ENTRY else ERASED_ENTRY), offsets)
  }

  lemma WornState(k: nat, offsets: set<u64>)
    requires k <= CPB_NSLOTS && |offsets| <= MAX_PARTITIONS
    ensures ApiState(Worn(k, offsets)) && Used(Worn(k, offsets).slots) == k && HasRoom(Worn(k, offsets).slots)
  {
    hide Prio, Live;
    var s := Worn(k, offsets).slots;
    assert k < |s| ==> s[k] == ERASED_ENTRY;
    assert forall i :: 0 <= i < k ==> s[i] == SPENT_ENTRY;
    PrioNoLive(s);
  }

  lemma WornSteps(k: nat, offsets: set<u64>)
    requires k <= CPB_NSLOTS && |offsets| <= MAX_PARTITIONS
    ensures HasRoom(Worn(k, offsets).slots)
    ensures k < CPB_NSLOTS ==> Apply(Worn(k, offsets), Remove(ERASED_ENTRY)) == Worn(k + 1, offsets)
    ensures k == CPB_NSLOTS ==> Apply(Worn(k, offsets), Add(ERASED_ENTRY)) == Worn(0, offsets)
  {
    hide Prio, Live;
    WornState(k, offsets);
    PrioNoLive(Worn(k, offsets).slots);
    if k < CPB_NSLOTS {
      assert Removed(Worn(k, offsets).slots, ERASED_ENTRY) == Worn(k + 1, offsets).slots;
    } else {
      assert Compacted(Worn(k, offsets).slots, ERASED_ENTRY) == Worn(0, offsets).slots;
    }
  }

  // a compaction, a removal of every entry, and a compaction
  function WornRun(offsets: set<u64>): seq<Boot> {
    [Worn(CPB_NSLOTS, offsets)] + seq(CPB_NSLOTS + 1, k requires k >= 0 => Worn(k, offsets)) + [Worn(0, offsets)]
  }

  function WornOps(): seq<Op> {
    [Add(ERASED_ENTRY)] + seq(CPB_NSLOTS, _ => Remove(ERASED_ENTRY)) + [Add(ERASED_ENTRY)]
  }

  lemma {:induction false} NoAdds(ops: seq<Op>)
    requires forall op :: op in ops ==> !op.Add?
    ensures Adds(ops) == 0
  {
    if |ops| > 0 { NoAdds(ops[..|ops| - 1]); }
  }

  lemma WornRunCompacts(offsets: set<u64>)
    requires ERASED_ENTRY in offsets && |offsets| <= MAX_PARTITIONS
    ensures TwoCompactions(WornRun(offsets), WornOps()) && Adds(Middle(WornOps())) == 0
    ensures forall i :: 0 <= i < |WornRun(offsets)| ==> WornRun(offsets)[i].offsets == offsets
  {
    hide Worn, Apply, ApiState, HasRoom, Used, LiveWithin;
    var run, ops := WornRun(offsets), WornOps();
    forall k | 0 <= k <= CPB_NSLOTS
      ensures Worn(k, offsets).offsets == offsets && |Worn(k, offsets).slots| == CPB_NSLOTS
      ensures ApiState(Worn(k, offsets)) && Used(Worn(k, offsets).slots) == k && HasRoom(Worn(k, offsets).slots)
    {
      WornOffsets(k, offsets);
      WornState(k, offsets);
    }
    forall i | 0 <= i < |ops|
      ensures Allowed(run[i], ops[i]) && HasRoom(run[i].slots) && run[i + 1] == Apply(run[i], ops[i])
    {
      var k := if i == 0 then CPB_NSLOTS else i - 1;
      assert run[i] == Worn(k, offsets);
      WornSteps(k, offsets);
    }
    assert forall i :: 0 < i < |ops| - 1 ==> ops[i] == Remove(ERASED_ENTRY);
    assert forall op :: op in Middle(ops) ==> op == Remove(ERASED_ENTRY);
    NoAdds(Middle(ops));
  }

  lemma WornOffsets(k: nat, offsets: set<u64>)
    ensures Worn(k, offsets).offsets == offsets && |Worn(k, offsets).slots| == CPB_NSLOTS
  {
  }

  /** Among tables that list only these offsets, there are always 381 adds between two compactions if and only
      if none of them is 2^64-1. */
  lemma AddsBetweenIff(offsets: set<u64>)
    requires |offsets| <= MAX_PARTITIONS
    ensures (forall run: seq<Boot>, ops: seq<Op> ::
               TwoCompactions(run, ops) && (forall i :: 0 <= i < |run| ==> run[i].offsets <= offsets) ==>
                 Adds(Middle(ops)) >= 381)
      <==> ERASED_ENTRY !in offsets
  {
    hide ApiRun, Compacts, Adds, Middle;
    if ERASED_ENTRY in offsets {
      WornRunCompacts(offsets);
    } else {
      forall run: seq<Boot>, ops: seq<Op>
        | TwoCompactions(run, ops) && (forall i :: 0 <= i < |run| ==> run[i].offsets <= offsets)
        ensures Adds(Middle(ops)) >= 381
      {
        RunStates(run, ops);
        CompactionsAreRare(run, ops);
      }
    }
  }

  lemma RunStates(run: seq<Boot>, ops: seq<Op>)
    requires ApiRun(run, ops)
    ensures |run| == |ops| + 1
  {
  }
}
