/** Drive labels for mounted volumes: a table of slots, and the volumes that hold their labels. */
module VoldLabels {
  import opened Bytes
  import opened Decimal
  import TextReading

  type Text = seq<byte>

  const SLOTS := 1023          // the slots that are handed out; the table has one more
  const LETTERS := 23          // D to Z
  const FIRST_LETTER: byte := 0x44
  const LAST_LETTER: byte := 0x5a

  /** The label that belongs to a slot: a letter, or sdb and a number. */
  function LabelOf(i: nat): (s: Text)
    requires i < SLOTS
    ensures s != [] && (i >= LETTERS ==> |s| > 3)
    ensures (FIRST_LETTER <= s[0] <= LAST_LETTER) <==> i < LETTERS
    ensures i < LETTERS ==> s[0] - FIRST_LETTER == i
  {
    if i < LETTERS then [FIRST_LETTER + i] else [115, 100, 98] + Dec(i - 22)
  }

  /** The label of the volume at the fixed external mount point. */
  const FIXED_LABEL: Text := [0x43]

  /** The label in plain terms: the letters D to Z in order, then sdb1, sdb2 and so on. */
  lemma LabelReads(i: nat)
    requires i < SLOTS
    ensures i < 23 ==> LabelOf(i) == [68 + i]
    ensures i >= 23 ==> LabelOf(i)[..3] == [115, 100, 98] && TextReading.Denotes(LabelOf(i)[3..], i - 22)
  {
    if i >= 23 {
      TextReading.NumberDenotes(i - 22);
      assert LabelOf(i)[3..] == Dec(i - 22);
    }
  }

  lemma LabelsDiffer(i: nat, j: nat)
    requires i < SLOTS && j < SLOTS && LabelOf(i) == LabelOf(j)
    ensures i == j
  {
    if i >= LETTERS {
      assert Dec(i - 22) == LabelOf(i)[3..] == LabelOf(j)[3..] == Dec(j - 22);
      DecReadsBack(i - 22);
      DecReadsBack(j - 22);
    }
  }

  class Volume {
    const atExternal: bool      // mounted at the fixed external mount point
    var wanted: bool            // mbGetLabel
    var label_: Option<Text>    // mDiskLabel
    var index: int              // mDiskLabel_index, never initialised by the source
    ghost var slot: nat         // the slot whose label it carries

    constructor (atExternal: bool, index: int)
      ensures this.atExternal == atExternal && label_ == None && !wanted && this.index == index
    {
      this.atExternal := atExternal;
      this.index := index;
      label_ := None;
      wanted := false;
    }

    /** The volume carries the label of slot i and knows how to give it back. */
    ghost predicate Holds(i: nat)
      reads this
    {
      i < SLOTS && slot == i && label_ == Some(LabelOf(i)) && (i >= LETTERS ==> index == i)
    }
  }

  class LabelTable {
    const used: array<bool>
    ghost var owner: map<nat, Volume>

    constructor ()
      ensures fresh(used) && Valid({}) && forall i :: 0 <= i < SLOTS ==> !used[i]
    {
      used := new bool[SLOTS + 1](_ => false);
      owner := map[];
    }

    /** A slot is marked exactly when it has an owner, which is one of the volumes and carries
        its label; a volume with a label owns a slot. */
    ghost predicate Valid(vols: set<Volume>)
      reads this, used, vols
    {
      && used.Length == SLOTS + 1
      && (forall i :: 0 <= i < used.Length ==> (used[i] <==> i in owner))
      && (forall i :: i in owner ==> owner[i] in vols && owner[i].Holds(i))
      && (forall v :: v in vols ==> !v.atExternal && (v.label_.Some? ==> v.slot in owner && owner[v.slot] == v))
    }

    /** No two volumes share a label, and a marked slot has exactly one holder. */
    lemma OneHolderEach(vols: set<Volume>)
      requires Valid(vols)
      ensures forall v, w :: v in vols && w in vols && v != w && v.label_.Some? ==> v.label_ != w.label_
      ensures forall i :: 0 <= i < SLOTS && used[i] ==>
                exists v :: v in vols && v.Holds(i) && forall w :: w in vols && w.Holds(i) ==> w == v
      ensures forall v, i: nat :: v in vols && i < SLOTS && v.label_ == Some(LabelOf(i)) ==> used[i] && v.Holds(i)
    {
      forall v, w | v in vols && w in vols && v != w && v.label_.Some? ensures v.label_ != w.label_ {
        if v.label_ == w.label_ {
          LabelsDiffer(v.slot, w.slot);
        }
      }
      forall i | 0 <= i < SLOTS && used[i]
        ensures exists v :: v in vols && v.Holds(i) && forall w :: w in vols && w.Holds(i) ==> w == v
      {
        assert owner[i] in vols && owner[i].Holds(i);
      }
      forall v, i: nat | v in vols && i < SLOTS && v.label_ == Some(LabelOf(i)) ensures used[i] && v.Holds(i) {
        LabelsDiffer(i, v.slot);
      }
    }

    /** Slot i is marked and its label given to v. */
    method Give(v: Volume, i: nat, ghost vols: set<Volume>)
      requires Valid(vols) && v in vols && v.label_ == None && i < SLOTS && !used[i]
      modifies this`owner, used, v`label_, v`index, v`slot
      ensures Valid(vols) && v.Holds(i) && used[..] == old(used[..])[i := true]
    {
      v.label_ := Some(LabelOf(i));
      used[i] := true;
      if i >= LETTERS {
        v.index := i;
      }
      v.slot := i;
      owner := owner[i := v];
    }

    method GetPartitionLabel(v: Volume, ghost vols: set<Volume>)
      requires Valid(vols) && (v in vols || v.atExternal)
      modifies this`owner, used, v`label_, v`index, v`slot
      ensures Valid(vols)
      ensures !v.wanted || old(v.label_).Some? ==> v.label_ == old(v.label_)
      ensures v.wanted && old(v.label_) == None && v.atExternal ==> v.label_ == Some(FIXED_LABEL)
      ensures v.wanted && old(v.label_) == None && !v.atExternal ==>
                || (v.label_ == None && used[..] == old(used[..]) && forall i :: 0 <= i < SLOTS ==> used[i])
                || exists i: nat ::
                     && i < SLOTS && LowestFree(old(used[..]), i) && v.label_ == Some(LabelOf(i)) && v.Holds(i)
                     && used[..] == old(used[..])[i := true]
      ensures v.label_ == old(v.label_) || v.atExternal ==> used[..] == old(used[..]) && v.index == old(v.index)
    {
      if !v.wanted || v.label_.Some? {
        return;
      }
      if v.atExternal {
        v.label_ := Some(FIXED_LABEL);
        return;
      }
      var i := 0;
      while i < SLOTS && used[i]
        invariant 0 <= i <= SLOTS && forall j :: 0 <= j < i ==> used[j]
      {
        i := i + 1;
      }
      if i < SLOTS {
        assert LowestFree(used[..], i);
        Give(v, i, vols);
      }
    }

    /** Unmarks the slot that the volume's label, or failing that its index, points at; an index
        outside the table makes it a store somewhere else. */
    method FreeByLetterOrIndex(v: Volume, ghost i: int) returns (stray: bool)
      requires used.Length == SLOTS + 1
      requires (0 <= i && v.Holds(i)) || (v.label_ == Some(FIXED_LABEL) && i == v.index)
      modifies used
      ensures stray <==> !(0 <= i <= SLOTS)
      ensures used[..] == if stray then old(used[..]) else old(used[..])[i := false]
    {
      var first := v.label_.value[0];
      stray := false;
      if FIRST_LETTER <= first <= LAST_LETTER {
        used[first - FIRST_LETTER] := false;
      } else if 0 <= v.index < used.Length {
        used[v.index] := false;
      } else {
        stray := true;
      }
    }

    /** A volume gives its slot back: exactly the slot whose label it holds is unmarked. */
    method ReleaseOwn(v: Volume, ghost vols: set<Volume>)
      requires Valid(vols) && v in vols && v.label_.Some?
      modifies this`owner, used, v`label_
      ensures Valid(vols) && v.label_ == None
      ensures old(v.Holds(v.slot)) && used[..] == old(used[..])[v.slot := false]
    {
      var stray := FreeByLetterOrIndex(v, v.slot);
      owner := owner - {v.slot};
      v.label_ := None;
      assert forall i :: 0 <= i < used.Length ==> used[i] == used[..][i];
    }

    /** The fixed label is given back through an index that was never set for it: nothing is harmed
        exactly when that index happens to name a slot of the table that is free. */
    method ReleaseFixed(v: Volume, ghost vols: set<Volume>) returns (stray: bool)
      requires Valid(vols) && v.atExternal && v.label_ == Some(FIXED_LABEL)
      modifies used, v`label_
      ensures v.label_ == None
      ensures stray <==> !(0 <= v.index <= SLOTS)
      ensures used[..] == if stray then old(used[..]) else old(used[..])[v.index := false]
      ensures Valid(vols) && !stray <==> 0 <= v.index <= SLOTS && !old(used[v.index])
      ensures stray ==> Valid(vols)
    {
      assert v !in vols;
      stray := FreeByLetterOrIndex(v, v.index);
      v.label_ := None;
      assert !stray ==> !used[..][v.index];
      if stray || !old(used[v.index]) {
        assert used[..] == old(used[..]);
        assert forall i :: 0 <= i < used.Length ==> used[i] == used[..][i];
      }
    }

    /** stray tells of a store outside the table. */
    method ReleasePartitionLabel(v: Volume, ghost vols: set<Volume>) returns (stray: bool)
      requires Valid(vols)
      requires v in vols || (v.atExternal && (v.label_ == None || v.label_ == Some(FIXED_LABEL)))
      modifies this`owner, used, v`label_
      ensures v.label_ == None && (v in vols ==> Valid(vols) && !stray)
      ensures old(v.label_) == None ==> Valid(vols) && used[..] == old(used[..]) && !stray
      ensures v in vols && old(v.label_).Some? ==> GaveBack(old(v.label_.value), old(used[..]))
      ensures v.atExternal && old(v.label_).Some? ==>
                && (stray <==> !(0 <= v.index <= SLOTS))
                && used[..] == (if stray then old(used[..]) else old(used[..])[v.index := false])
                && (Valid(vols) && !stray <==> 0 <= v.index <= SLOTS && !old(used[v.index]))
    {
      stray := false;
      if v.label_ != None {
        if v.atExternal {
          stray := ReleaseFixed(v, vols);
        } else {
          ReleaseOwn(v, vols);
          assert old(v.label_.value) == LabelOf(v.slot) && old(used[..])[v.slot];
        }
      }
    }

    /** What can happen: a volume holds a label, the volume at the fixed mount point, whose index
        happens to be that of the slot, gives its own label back, and the slot is free although its
        label is still held. */
    static method FixedLabelFreesAnother() returns (table: LabelTable, other: Volume)
      ensures fresh(table) && fresh(other) && fresh(table.used)
      ensures other.Holds(0) && table.used.Length > 0 && !table.used[0] && !table.Valid({other})
    {
      table, other := FirstHolder();
      var fixed := new Volume(true, 0);
      fixed.wanted := true;
      table.GetPartitionLabel(fixed, {other});
      assert table.used[..][0];
      var stray := table.ReleasePartitionLabel(fixed, {other});
      assert !table.used[..][0];
    }

    /** The first volume that asks gets the first slot. */
    static method FirstHolder() returns (table: LabelTable, other: Volume)
      ensures fresh(table) && fresh(other) && fresh(table.used)
      ensures table.Valid({other}) && other.Holds(0) && table.used[0]
    {
      table := new LabelTable();
      other := new Volume(false, 0);
      other.wanted := true;
      ghost var before := table.used[..];
      assert !before[0];
      table.GetPartitionLabel(other, {other});
      assert forall i: nat :: LowestFree(before, i) ==> i == 0;
    }

    /** Exactly the slot with this label was taken before and is free now. */
    ghost predicate GaveBack(was: Text, before: seq<bool>)
      reads this, used
    {
      exists i: nat :: i < SLOTS && i < |before| && was == LabelOf(i) && before[i] && used[..] == before[i := false]
    }

    static predicate LowestFree(u: seq<bool>, i: nat) {
      i < |u| && !u[i] && forall j :: 0 <= j < i ==> u[j]
    }

    /** No slot in front of the lowest free one is free, and there is only one such slot. */
    static lemma LowestIsLowest(u: seq<bool>, i: nat, j: nat)
      requires LowestFree(u, i) && j < |u| && !u[j]
      ensures !u[i] && i <= j
    {
    }

    /** Any interleaving of requests and releases by the volumes: the table stays in order, so by
        OneHolderEach every marked slot has one holder and no two volumes share a label. */
    method Interleave(ops: seq<(Volume, bool)>, ghost vols: set<Volume>)
      requires Valid(vols) && forall k :: 0 <= k < |ops| ==> ops[k].0 in vols
      modifies this`owner, used, vols
      ensures Valid(vols)
    {
      for k := 0 to |ops|
        invariant Valid(vols)
      {
        if ops[k].1 {
          GetPartitionLabel(ops[k].0, vols);
        } else {
          var stray := ReleasePartitionLabel(ops[k].0, vols);
        }
      }
    }
  }
}
