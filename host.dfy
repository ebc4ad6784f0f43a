/**
  The parts of the host's binary view that the plugin reads, as plain values:
  the byte image, the symbol table, the code-reference index, the section
  list, the string table and the outcome of the function binder. A rename
  is recorded as an event instead of being applied to host objects.
*/
module Host {

  import opened Wrappers

  /** A section `[start, end)` with its name, as `bv.sections.values()` yields it. */
  datatype Section = Section(name: string, start: int, end: int)

  /** The request to name the function at `address` `name`. */
  datatype Rename = Rename(address: int, name: string)

  datatype BinaryView = BinaryView(
    /** The backed bytes of the image: what `bv.read` can return. */
    image: map<int, Byte>,
    /** `bv.get_symbol_at(a).name` for each address that has a symbol. */
    symbols: map<int, string>,
    /** The addresses of `bv.get_code_refs(a)`; an absent key means no references. */
    codeRefs: map<int, seq<int>>,
    /** `bv.sections.values()`, in the host's order. */
    sections: seq<Section>,
    /** The start address of each entry of `bv.strings`, in the host's order. */
    strings: seq<int>,
    /**
      The addresses at which finding or creating a function and renaming it
      completes; elsewhere the binder yields no function or raises.
    */
    bindable: set<int>)

  /** Membership in a section is half-open. */
  predicate InSection(s: Section, a: int)
  {
    s.start <= a < s.end
  }

  /**
    Python's truth value of a section. A `Section` has a length, `end - start`,
    so one of length zero is falsy; the host never gives `end` below `start`.
  */
  predicate NonEmpty(s: Section)
  {
    s.start < s.end
  }

  /** The code references to `a`. */
  function CodeRefs(bv: BinaryView, a: int): seq<int>
  {
    if a in bv.codeRefs then bv.codeRefs[a] else []
  }

  /** The backed bytes from `address` on, stopping at the first unbacked one or after `length`. */
  function BackedRun(image: map<int, Byte>, address: int, length: nat): (bs: seq<Byte>)
    ensures |bs| <= length
    decreases length
  {
    if length == 0 || address !in image then []
    else [image[address]] + BackedRun(image, address + 1, length - 1)
  }

  /** Byte `i` of the run is the image's byte at `address + i`. */
  lemma {:induction false} BackedRunAt(image: map<int, Byte>, address: int, length: nat, i: int)
    requires 0 <= i < |BackedRun(image, address, length)|
    ensures address + i in image && BackedRun(image, address, length)[i] == image[address + i]
    decreases length
  {
    if i > 0 {
      BackedRunAt(image, address + 1, length - 1, i - 1);
    }
  }

  /** A run shorter than asked for stopped at an unbacked address. */
  lemma {:induction false} BackedRunStops(image: map<int, Byte>, address: int, length: nat)
    ensures |BackedRun(image, address, length)| < length ==>
              address + |BackedRun(image, address, length)| !in image
    decreases length
  {
    if length > 0 && address in image {
      BackedRunStops(image, address + 1, length - 1);
    }
  }

  /**
    `bv.read(address, length)`: the backed bytes there, possibly fewer than
    asked for; a negative address is not an address and the call raises.
  */
  function ReadBytes(image: map<int, Byte>, address: int, length: nat): (r: Option<seq<Byte>>)
    ensures r.Some? <==> address >= 0
    ensures r.Some? ==> |r.value| <= length
  {
    if address < 0 then None else Some(BackedRun(image, address, length))
  }
}
