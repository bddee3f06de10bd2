/**
 Address translation as the processor does it, by section 4.4 of the RISC-V privileged architecture (Sv39): it reads
 words, tests their bits and follows page numbers.  It finds what the page tables of the model say.
 */
module Hardware {
  import opened PageEntry
  import opened Tables
  import opened Frames

  /** A leaf word with the level it was found at, or a page fault. */
  datatype Translation = Fault | Leaf(word: nat, level: nat)

  /** The word at index i of the table in the frame with that page number; outside RAM there is none. */
  ghost function WordAt(s: Phys, ppn: nat, i: nat): nat {
    if BASE_PPN <= ppn < BASE_PPN + |s.mem| && i < |FrameAt(s, ppn - BASE_PPN)| then
      Encode(FrameAt(s, ppn - BASE_PPN)[i])
    else 0
  }

  /** The index of page p at a level. */
  function Index(p: nat, level: nat): nat {
    if level == 2 then p / 262144 % 512 else if level == 1 then p / 512 % 512 else p % 512
  }

  ghost function Translate(s: Phys, ppn: nat, p: nat, level: nat): Translation
    decreases level
  {
    var w := WordAt(s, ppn, Index(p, level));
    if !Bit(w, 0) || (!Bit(w, 1) && Bit(w, 2)) then Fault
    else if Bit(w, 1) || Bit(w, 3) then Leaf(w, level)
    else if level == 0 then Fault
    else Translate(s, Pte2Pa(w) / 4096, p, level - 1)
  }

  /** An entry the processor accepts as a leaf. */
  predicate IsLeaf(w: Pte) {
    w.valid && (w.read || w.exec) && (w.write ==> w.read)
  }

  /** The word in a slot of the tables. */
  lemma SlotWord(s: Phys, sl: Slot)
    requires Inv(s) && sl in s.tb.ent && sl !in s.stale
    ensures 0 <= sl.t && 0 <= sl.i < WORDS
    ensures WordAt(s, BASE_PPN + sl.t, sl.i) == Encode(s.tb.ent[sl])
  {
    hide Encode, Forest, Linked, Counted;
    SlotFacts(s, sl);
  }

  /** A word the processor follows, and where to. */
  lemma Follow(s: Phys, sl: Slot, p: nat, level: nat)
    requires Inv(s) && sl in s.tb.ent && sl !in s.stale && sl.i == Index(p, level)
    requires s.tb.dir[sl.t].level == level > 0
    ensures 0 <= sl.t
    ensures var c := Target(s.tb.ent[sl]);
            Translate(s, BASE_PPN + sl.t, p, level) ==
            if c == -1 then Fault else Translate(s, BASE_PPN + c, p, level - 1)
  {
    hide Bit, Encode, Pte2Pa, Forest, Linked, Counted, WordAt;
    SlotWord(s, sl);
    FlagPositions(s.tb.ent[sl]);
    Interior(s, sl);
    if Target(s.tb.ent[sl]) != -1 {
      MacrosSplitTheWord(s.tb.ent[sl]);
    }
  }

  lemma Interior(s: Phys, sl: Slot)
    requires Inv(s) && sl in s.tb.ent && s.tb.dir[sl.t].level > 0
    ensures var w := s.tb.ent[sl];
            if Target(w) == -1 then !w.valid else IsPointer(w) && w.ppn == BASE_PPN + Target(w)
  {
    hide Linked, Counted, Shape;
    assert EntryOk(s.tb, sl);
    NoTableBelowZero(s);
  }

  /** The processor translates page p of an address space exactly as the tables say, and never by a larger page. */
  lemma TranslatesAsLookup(s: Phys, root: int, p: int)
    requires Inv(s) && s.stale == {} && IsRoot(s.tb, root) && IsPage(p) && root >= 0
    ensures var w := Lookup(s.tb, root, p);
            Translate(s, BASE_PPN + root, p, 2) == if IsLeaf(w) then Leaf(Encode(w), 0) else Fault
  {
    hide Bit, Encode, Inv, WordAt, Translate;
    InvWalk(s, root, p);
    Follow(s, Slot(root, p / 262144), p, 2);
    var t1 := Walk1(s.tb, root, p);
    if t1 == -1 {
      NoLeafTable(s, root, p);
    } else {
      Follow(s, Slot(t1, p / 512 % 512), p, 1);
      var t0 := Walk0(s.tb, root, p);
      if t0 == -1 {
        NoLeafTable(s, root, p);
      } else {
        Bottom(s, LeafSlot(s.tb, root, p), p);
        LookupIsLeaf(s.tb, root, p);
      }
    }
  }

  lemma NoLeafTable(s: Phys, root: int, p: int)
    requires Inv(s) && (Walk1(s.tb, root, p) == -1 || Walk0(s.tb, root, p) == -1)
    ensures !Lookup(s.tb, root, p).valid
  {
    NoTableBelowZero(s);
    if Walk0(s.tb, root, p) == -1 {
      NoTable(s, root, p);
    }
  }

  lemma Bottom(s: Phys, sl: Slot, p: nat)
    requires Inv(s) && sl in s.tb.ent && sl !in s.stale && sl.i == p % 512
    ensures 0 <= sl.t
    ensures var w := s.tb.ent[sl];
            Translate(s, BASE_PPN + sl.t, p, 0) == if IsLeaf(w) then Leaf(Encode(w), 0) else Fault
  {
    hide Bit, Encode, Forest, Linked, Counted, WordAt;
    SlotWord(s, sl);
    FlagPositions(s.tb.ent[sl]);
  }
}
