/**
  Instruction words of the Arm A64 instruction set as the plugin sees them:
  four little-endian bytes decoded into an unsigned 32-bit word, and the three
  mask/compare predicates that recognise the ADRP, 64-bit LDR (immediate) and
  BR encodings (chapter C6, "A64 Base Instruction Descriptions", of the Arm
  Architecture Reference Manual for A-profile).

  Bytes and words are bit-vectors: a Python byte is an int in [0, 256) and the
  word `struct.unpack('<I', ...)` yields an int in [0, 2^32), and `&` on such
  ints is `&` on their bits. The masks are modelled exactly as written, not as
  the mnemonics suggest: the ADRP mask leaves bits 29 and 30 free, and the
  LDR mask fixes the top byte only.
*/
module Instructions {

  import opened Wrappers

  /** An unsigned 32-bit word. */
  type Word = bv32

  /** `is_adrp_instruction`: the mask 0x9F000000 must give 0x90000000. */
  predicate IsAdrp(w: Word) { w & 0x9F00_0000 == 0x9000_0000 }

  /** `is_ldr_instruction`: the mask 0xFF000000 must give 0xF9000000. */
  predicate IsLdr(w: Word) { w & 0xFF00_0000 == 0xF900_0000 }

  /** `is_br_instruction`: the mask 0xFFFFFC1F must give 0xD61F0000. */
  predicate IsBr(w: Word) { w & 0xFFFF_FC1F == 0xD61F_0000 }

  /** No word satisfies two of the three predicates. */
  lemma ClassifiersDisjoint(w: Word)
    ensures !(IsAdrp(w) && IsLdr(w))
    ensures !(IsAdrp(w) && IsBr(w))
    ensures !(IsLdr(w) && IsBr(w))
  {
  }

  /** The BR encoding with register `reg` in bits 5-9. */
  function BranchTo(reg: bv5): (w: Word)
    ensures (w >> 5) & 0x1F == reg as bv32
  {
    0xD61F_0000 | ((reg as bv32) << 5)
  }

  /** The BR predicate holds of exactly the 32 encodings `BranchTo(reg)`: only bits 5-9 are free. */
  lemma BrIsBranchToRegister(w: Word)
    ensures IsBr(w) <==> exists reg: bv5 :: w == BranchTo(reg)
  {
    if IsBr(w) {
      var reg := ((w >> 5) & 0x1F) as bv5;
      assert w == BranchTo(reg);
    }
  }

  /**
    The LDR predicate holds exactly when the top byte is 0xF9; that includes
    the store encodings (bits 22-23 clear), which the mask does not exclude.
  */
  lemma LdrIsTopByte(w: Word)
    ensures IsLdr(w) <==> w >> 24 == 0xF9
    ensures IsLdr(0xF900_0000) && IsLdr(0xF940_0000)
  {
  }

  /**
    The ADRP mask fixes bit 31 to 1 and bits 24-28 to 10000 and leaves bits
    29-30 free, so the top byte of an accepted word is one of four values;
    top bytes 0x80 and 0x81 are rejected.
  */
  lemma AdrpTopByte(w: Word)
    ensures IsAdrp(w) <==> w >> 24 in {0x90, 0xB0, 0xD0, 0xF0}
    ensures !IsAdrp(0x8000_0000) && !IsAdrp(0x8100_0000)
  {
  }

  /** The three instruction classes of the trampoline shape, and the rest. */
  datatype InstrClass = AddressPage | LoadRegister | BranchRegister | Other

  /** Whether `w` passes the predicate that stands for class `c`. */
  predicate HasClass(w: Word, c: InstrClass)
  {
    match c
    case AddressPage => IsAdrp(w)
    case LoadRegister => IsLdr(w)
    case BranchRegister => IsBr(w)
    case Other => !IsAdrp(w) && !IsLdr(w) && !IsBr(w)
  }

  /** Every word falls in exactly one class, because the predicates are disjoint. */
  function Classify(w: Word): (c: InstrClass)
    ensures HasClass(w, c)
    ensures forall d :: HasClass(w, d) ==> d == c
  {
    ClassifiersDisjoint(w);
    if IsAdrp(w) then AddressPage
    else if IsLdr(w) then LoadRegister
    else if IsBr(w) then BranchRegister
    else Other
  }

  /** `struct.unpack('<I', bs)`: four bytes, least significant first; any other length raises. */
  function UnpackLe(bs: seq<Byte>): (r: Option<Word>)
    ensures r.Some? <==> |bs| == 4
  {
    if |bs| == 4 then
      Some((bs[0] as bv32) | ((bs[1] as bv32) << 8) | ((bs[2] as bv32) << 16) | ((bs[3] as bv32) << 24))
    else
      None
  }

  /** `struct.pack('<I', w)`: the word's bytes, least significant first. */
  function PackLe(w: Word): (bs: seq<Byte>)
    ensures |bs| == 4
  {
    [(w & 0xFF) as bv8, ((w >> 8) & 0xFF) as bv8, ((w >> 16) & 0xFF) as bv8, (w >> 24) as bv8]
  }

  /** Unpacking what was packed gives the word back. */
  lemma UnpackPack(w: Word)
    ensures UnpackLe(PackLe(w)) == Some(w)
  {
  }

  /** Packing what was unpacked gives the bytes back. */
  lemma PackUnpack(bs: seq<Byte>)
    requires |bs| == 4
    ensures PackLe(UnpackLe(bs).value) == bs
  {
  }

  /**
    The unpacked word, as an unbounded integer, is the byte-weighted sum
    `b0 + 2^8 b1 + 2^16 b2 + 2^24 b3`, and it is below 2^32.
  */
  lemma UnpackIsWeightedSum(bs: seq<Byte>)
    requires |bs| == 4
    ensures UnpackLe(bs).value as int ==
              bs[0] as int + 0x100 * bs[1] as int + 0x1_0000 * bs[2] as int + 0x100_0000 * bs[3] as int
    ensures UnpackLe(bs).value as int < 0x1_0000_0000
  {
    BytesWeightedSum(bs[0], bs[1], bs[2], bs[3]);
  }

  /** Or-ing the shifted bytes into place adds their weights. */
  lemma BytesWeightedSum(b0: Byte, b1: Byte, b2: Byte, b3: Byte)
    ensures ((b0 as bv32) | ((b1 as bv32) << 8) | ((b2 as bv32) << 16) | ((b3 as bv32) << 24)) as int
              == b0 as int + 0x100 * b1 as int + 0x1_0000 * b2 as int + 0x100_0000 * b3 as int
  {
  }
}
