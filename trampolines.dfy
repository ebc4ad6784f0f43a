/**
  Reading instruction words from the image and recognising the five-word
  message-send trampoline: ADRP, LDR, ADRP, LDR, BR at consecutive words.
*/
module Trampolines {

  import opened Wrappers
  import opened Instructions
  import opened Host

  /**
    `read_le_instruction`: four bytes at `address` as a little-endian word;
    `None` on a short or failed read. `ReadIsUnpackOfRead` shows this is
    `struct.unpack('<I', ...)` applied to what `bv.read(address, 4)` returns.
  */
  function ReadLeInstruction(image: map<int, Byte>, address: int): (r: Option<Word>)
    ensures r.Some? <==>
              address >= 0 && address in image && address + 1 in image
              && address + 2 in image && address + 3 in image
  {
    if address >= 0 && address in image && address + 1 in image && address + 2 in image && address + 3 in image
    then UnpackLe([image[address], image[address + 1], image[address + 2], image[address + 3]])
    else None
  }

  /**
    The word read is what unpacking the result of the four-byte read gives:
    `None` when the read raises or comes back short, the decoded word otherwise.
  */
  lemma ReadIsUnpackOfRead(image: map<int, Byte>, address: int)
    ensures ReadLeInstruction(image, address) ==
              match ReadBytes(image, address, 4)
              case None => None
              case Some(bs) => UnpackLe(bs)
  {
    ReadFourBytes(image, address);
  }

  /** Four bytes come back exactly when all four addresses are backed, and they are the image's. */
  lemma ReadFourBytes(image: map<int, Byte>, address: int)
    ensures |BackedRun(image, address, 4)| == 4 <==>
              address in image && address + 1 in image && address + 2 in image && address + 3 in image
    ensures |BackedRun(image, address, 4)| == 4 ==>
              BackedRun(image, address, 4) == [image[address], image[address + 1], image[address + 2], image[address + 3]]
  {
    var bs := BackedRun(image, address, 4);
    BackedRunStops(image, address, 4);
    forall i | 0 <= i < |bs| ensures address + i in image && bs[i] == image[address + i] {
      BackedRunAt(image, address, 4, i);
    }
    if |bs| == 4 {
      assert address + 0 in image && address + 1 in image && address + 2 in image && address + 3 in image;
    }
  }

  /** A successful read is the byte-weighted sum of the four bytes, least significant first. */
  lemma ReadLeIsWeightedSum(image: map<int, Byte>, address: int)
    requires ReadLeInstruction(image, address).Some?
    ensures ReadLeInstruction(image, address).value as int ==
              image[address] as int + 0x100 * image[address + 1] as int
              + 0x1_0000 * image[address + 2] as int + 0x100_0000 * image[address + 3] as int
    ensures ReadLeInstruction(image, address).value as int < 0x1_0000_0000
  {
    UnpackIsWeightedSum([image[address], image[address + 1], image[address + 2], image[address + 3]]);
  }

  /** The word at `address` can be read and has class `c`. */
  predicate WordHasClass(image: map<int, Byte>, address: int, c: InstrClass)
  {
    var w := ReadLeInstruction(image, address);
    w.Some? && HasClass(w.value, c)
  }

  /** The required class of each of the five words. */
  const Shape: seq<InstrClass> := [AddressPage, LoadRegister, AddressPage, LoadRegister, BranchRegister]

  /** The five words at `start, start + 4, ..., start + 16` are ADRP, LDR, ADRP, LDR, BR. */
  predicate IsTrampoline(image: map<int, Byte>, start: int)
  {
    && WordHasClass(image, start, AddressPage)
    && WordHasClass(image, start + 4, LoadRegister)
    && WordHasClass(image, start + 8, AddressPage)
    && WordHasClass(image, start + 12, LoadRegister)
    && WordHasClass(image, start + 16, BranchRegister)
  }

  /**
    `is_valid_objc_trampoline`: reads the five words into a list, giving up at
    the first failed read, then checks the pattern.
  */
  method IsValidObjcTrampoline(image: map<int, Byte>, start: int) returns (valid: bool)
    ensures valid == IsTrampoline(image, start)
  {
    var instructions: seq<Word> := [];
    var offset := 0;
    while offset < 20
      invariant 0 <= offset <= 20 && offset % 4 == 0
      invariant |instructions| == offset / 4
      invariant forall k :: 0 <= k < |instructions| ==>
                  ReadLeInstruction(image, start + 4 * k) == Some(instructions[k])
    {
      var instruction := ReadLeInstruction(image, start + offset);
      if instruction.None? {
        FailedReadRejects(image, start, offset / 4);
        return false;
      }
      instructions := instructions + [instruction.value];
      offset := offset + 4;
    }
    valid := IsAdrp(instructions[0]) && IsLdr(instructions[1]) && IsAdrp(instructions[2])
             && IsLdr(instructions[3]) && IsBr(instructions[4]);
    TrampolineOfWords(image, start, instructions);
  }

  /** With all five words read, the shape is the pattern check on them. */
  lemma TrampolineOfWords(image: map<int, Byte>, start: int, ws: seq<Word>)
    requires |ws| == 5
    requires forall k :: 0 <= k < 5 ==> ReadLeInstruction(image, start + 4 * k) == Some(ws[k])
    ensures IsTrampoline(image, start) <==>
              IsAdrp(ws[0]) && IsLdr(ws[1]) && IsAdrp(ws[2]) && IsLdr(ws[3]) && IsBr(ws[4])
  {
    assert ReadLeInstruction(image, start + 4 * 0) == Some(ws[0]);
    assert ReadLeInstruction(image, start + 4 * 1) == Some(ws[1]);
    assert ReadLeInstruction(image, start + 4 * 2) == Some(ws[2]);
    assert ReadLeInstruction(image, start + 4 * 3) == Some(ws[3]);
    assert ReadLeInstruction(image, start + 4 * 4) == Some(ws[4]);
  }

  /** A failed read of any of the five words rejects the candidate. */
  lemma FailedReadRejects(image: map<int, Byte>, start: int, slot: nat)
    requires slot < 5 && ReadLeInstruction(image, start + 4 * slot).None?
    ensures !IsTrampoline(image, start)
  {
  }

  /** A trampoline needs all 20 bytes: one unbacked byte, or a negative start, rejects it. */
  lemma UnbackedByteRejects(image: map<int, Byte>, start: int, a: int)
    requires start <= a < start + 20
    requires a !in image || start < 0
    ensures !IsTrampoline(image, start)
  {
    var slot := if start < 0 then 0 else (a - start) / 4;
    assert start < 0 || start + 4 * slot <= a < start + 4 * slot + 4;
    FailedReadRejects(image, start, slot);
  }

  /** The image with `w` stored little-endian at `address`. */
  function StoreLe(image: map<int, Byte>, address: int, w: Word): map<int, Byte>
  {
    var bs := PackLe(w);
    image[address := bs[0]][address + 1 := bs[1]][address + 2 := bs[2]][address + 3 := bs[3]]
  }

  /** A stored word reads back. */
  lemma ReadAfterStore(image: map<int, Byte>, address: int, w: Word)
    requires address >= 0
    ensures ReadLeInstruction(StoreLe(image, address, w), address) == Some(w)
  {
    ReadFourBytes(StoreLe(image, address, w), address);
    UnpackPack(w);
  }

  /** Storing a word leaves the words that do not overlap it unchanged. */
  lemma ReadOtherAfterStore(image: map<int, Byte>, address: int, w: Word, other: int)
    requires other + 4 <= address || address + 4 <= other
    ensures ReadLeInstruction(StoreLe(image, address, w), other) == ReadLeInstruction(image, other)
  {
    var img := StoreLe(image, address, w);
    assert forall k :: other <= k < other + 4 ==> (k in img <==> k in image) && (k in image ==> img[k] == image[k]);
    ReadFourBytes(image, other);
    ReadFourBytes(img, other);
  }

  /**
    Overwriting any one slot with a word of the wrong class rejects the
    start, whatever the other slots hold: the shape check is all-or-nothing.
  */
  lemma WrongSlotRejects(image: map<int, Byte>, start: int, slot: nat, w: Word)
    requires slot < |Shape| && !HasClass(w, Shape[slot])
    ensures !IsTrampoline(StoreLe(image, start + 4 * slot, w), start)
  {
    var a := start + 4 * slot;
    if start < 0 {
      assert ReadLeInstruction(StoreLe(image, a, w), start).None?;
    } else {
      StoredWrongClass(image, start, slot, w);
    }
  }

  /** The non-negative case of `WrongSlotRejects`. */
  lemma StoredWrongClass(image: map<int, Byte>, start: int, slot: nat, w: Word)
    requires start >= 0 && slot < |Shape| && !HasClass(w, Shape[slot])
    ensures !IsTrampoline(StoreLe(image, start + 4 * slot, w), start)
  {
    var img := StoreLe(image, start + 4 * slot, w);
    ReadAfterStore(image, start + 4 * slot, w);
    SlotMismatch(img, start, slot, w);
  }

  /** A slot whose word has the wrong class spoils the trampoline. */
  lemma SlotMismatch(image: map<int, Byte>, start: int, slot: nat, w: Word)
    requires slot < |Shape| && !HasClass(w, Shape[slot])
    requires ReadLeInstruction(image, start + 4 * slot) == Some(w)
    ensures !IsTrampoline(image, start)
  {
    TrampolineSlot(image, start, slot);
  }

  /** Each slot of a trampoline holds a word of the class `Shape` names for it. */
  lemma TrampolineSlot(image: map<int, Byte>, start: int, slot: nat)
    requires slot < |Shape|
    ensures IsTrampoline(image, start) ==> WordHasClass(image, start + 4 * slot, Shape[slot])
  {
  }

  /** The image with the words `ws` stored at `start`, `start + 4`, ... */
  function StoreWords(image: map<int, Byte>, start: int, ws: seq<Word>): map<int, Byte>
    decreases |ws|
  {
    if ws == [] then image
    else StoreWords(StoreLe(image, start, ws[0]), start + 4, ws[1..])
  }

  /** Word `k` of the stored words reads back. */
  lemma {:induction false} StoredWordsReadBack(image: map<int, Byte>, start: int, ws: seq<Word>, k: nat)
    requires start >= 0 && k < |ws|
    ensures ReadLeInstruction(StoreWords(image, start, ws), start + 4 * k) == Some(ws[k])
    decreases |ws|
  {
    if k == 0 {
      ReadAfterStore(image, start, ws[0]);
      StoreWordsKeepsBelow(StoreLe(image, start, ws[0]), start + 4, ws[1..], start);
    } else {
      StoredWordsReadBack(StoreLe(image, start, ws[0]), start + 4, ws[1..], k - 1);
    }
  }

  /** Storing words from `start` on leaves a word that ends at or before `start` unchanged. */
  lemma {:induction false} StoreWordsKeepsBelow(image: map<int, Byte>, start: int, ws: seq<Word>, a: int)
    requires a + 4 <= start
    ensures ReadLeInstruction(StoreWords(image, start, ws), a) == ReadLeInstruction(image, a)
    decreases |ws|
  {
    if ws != [] {
      ReadOtherAfterStore(image, start, ws[0], a);
      StoreWordsKeepsBelow(StoreLe(image, start, ws[0]), start + 4, ws[1..], a);
    }
  }

  /** Five words of the right classes, stored at a non-negative start, make a trampoline there. */
  lemma StoredShapeAccepted(image: map<int, Byte>, start: int, ws: seq<Word>)
    requires start >= 0 && |ws| == |Shape|
    requires forall slot :: 0 <= slot < |Shape| ==> HasClass(ws[slot], Shape[slot])
    ensures IsTrampoline(StoreWords(image, start, ws), start)
  {
    var img := StoreWords(image, start, ws);
    forall k | 0 <= k < 5 ensures ReadLeInstruction(img, start + 4 * k) == Some(ws[k]) {
      StoredWordsReadBack(image, start, ws, k);
    }
    assert HasClass(ws[0], Shape[0]) && HasClass(ws[1], Shape[1]) && HasClass(ws[2], Shape[2])
           && HasClass(ws[3], Shape[3]) && HasClass(ws[4], Shape[4]);
    TrampolineOfWords(img, start, ws);
  }

  /**
    Two trampolines whose starts differ by a multiple of four cannot overlap:
    at some shared word the two shapes ask for disjoint classes.
  */
  lemma TrampolinesDoNotOverlap(image: map<int, Byte>, s: int, t: int)
    requires IsTrampoline(image, s) && IsTrampoline(image, t)
    requires s < t && (t - s) % 4 == 0
    ensures t - s >= 20
  {
    if t - s < 20 {
      ShiftedTrampolineClash(image, s, t - s);
    }
  }

  /** A trampoline shifted by one to four words clashes with itself. */
  lemma ShiftedTrampolineClash(image: map<int, Byte>, s: int, d: int)
    requires d == 4 || d == 8 || d == 12 || d == 16
    ensures !(IsTrampoline(image, s) && IsTrampoline(image, s + d))
  {
    if d == 4 {
      // slot 1 of `s` is LDR, slot 0 of `s + 4` is ADRP
      ClassesClash(image, s + 4, LoadRegister, AddressPage);
    } else if d == 8 {
      // slot 4 of `s` is BR, slot 2 of `s + 8` is ADRP
      ClassesClash(image, s + 16, BranchRegister, AddressPage);
    } else if d == 12 {
      // slot 3 of `s` is LDR, slot 0 of `s + 12` is ADRP
      ClassesClash(image, s + 12, LoadRegister, AddressPage);
    } else {
      // slot 4 of `s` is BR, slot 0 of `s + 16` is ADRP
      ClassesClash(image, s + 16, BranchRegister, AddressPage);
    }
  }

  /** No word has two of the three trampoline classes. */
  lemma ClassesClash(image: map<int, Byte>, a: int, c: InstrClass, d: InstrClass)
    requires c != d && c != Other && d != Other
    ensures !(WordHasClass(image, a, c) && WordHasClass(image, a, d))
  {
    var w := ReadLeInstruction(image, a);
    if w.Some? {
      ClassifiersDisjoint(w.value);
    }
  }
}
