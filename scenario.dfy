/**
  One complete run of the plugin command on a small image: one selector
  string, one code reference to it from `__objc_stubs`, and a trampoline
  16 bytes before the reference, so the first candidate (20 bytes before)
  fails to read and the second is renamed.
*/
module Scenario {

  import opened Wrappers
  import opened Instructions
  import opened Host
  import opened Trampolines
  import opened SelectorNames
  import opened Locator
  import opened Plugin

  /** `adrp x1`, `ldr x1, [x1]`, `adrp x16`, `ldr x16, [x16]`, `br x16`. */
  const StubWords: seq<Word> := [0x9000_0001, 0xF940_0021, 0x9000_0010, 0xF940_0210, 0xD61F_0200]

  const StubStart: int := 0x2010
  const Reference: int := 0x2020
  const SelectorString: int := 0x1000

  /** The stubs come first, so the `__objc_methname` loop passes over them. */
  const ExampleSections: seq<Section> := [Section("__objc_stubs", 0x2000, 0x2100), Section("__objc_methname", 0x1000, 0x1100)]

  /** `base` with the stub's five words stored at `StubStart`. */
  function ExampleImage(base: map<int, Byte>): map<int, Byte>
  {
    StoreWords(base, StubStart, StubWords)
  }

  /** The example view over `image`: one selector string with one reference from the stubs. */
  function ExampleView(image: map<int, Byte>): BinaryView
  {
    BinaryView(
      image,
      map[SelectorString := "sel_initWithFrame:"],
      map[SelectorString := [Reference]],
      ExampleSections,
      [SelectorString],
      {StubStart})
  }

  /** The stub is recognised, and the candidate 20 bytes before the reference fails to read. */
  lemma ExampleShapes(base: map<int, Byte>)
    requires Reference - 20 !in base
    ensures IsTrampoline(ExampleImage(base), StubStart)
    ensures !IsTrampoline(ExampleImage(base), Reference - 20)
  {
    assert HasClass(StubWords[0], AddressPage) && HasClass(StubWords[1], LoadRegister)
           && HasClass(StubWords[2], AddressPage) && HasClass(StubWords[3], LoadRegister)
           && HasClass(StubWords[4], BranchRegister);
    StoredShapeAccepted(base, StubStart, StubWords);
    StoreWordsKeepsBelow(base, StubStart, StubWords, Reference - 20);
    FailedReadRejects(ExampleImage(base), Reference - 20, 0);
  }

  /** The section loops settle on the two sections by name. */
  lemma ExampleLookups()
    ensures SectionLookup(ExampleSections, StubsKey) == Some(ExampleSections[0])
    ensures SectionLookup(ExampleSections, MethnameKey) == Some(ExampleSections[1])
  {
    var sections := ExampleSections;
    assert Lower("__objc_stubs") == "__objc_stubs";
    assert OccursAt(Lower(sections[0].name), StubsKey, 0);
    FirstMatchAt(sections, StubsKey, 0);
    assert !MatchesKey(sections[0], MethnameKey);
    assert Lower("__objc_methname") == "__objc_methname";
    assert OccursAt(Lower(sections[1].name), MethnameKey, 0);
    FirstMatchAt(sections, MethnameKey, 1);
  }

  /**
    Whatever else the image holds, as long as nothing is mapped 20 bytes
    before the reference, the scan counts one selector and one trampoline,
    renamed `_objc_sendMsg$initWithFrame:`.
  */
  lemma ExampleScan(base: map<int, Byte>)
    requires Reference - 20 !in base
    ensures Scan(ExampleView(ExampleImage(base))) == Some(ScanReport(1, 1, [Rename(StubStart, "_objc_sendMsg$initWithFrame:")]))
  {
    ExampleShapes(base);
    OneSelectorScan(ExampleImage(base));
  }

  /** For any image where the stub is a trampoline and the first candidate is not, the reference renames the stub. */
  lemma OneReferenceRenames(image: map<int, Byte>)
    requires IsTrampoline(image, StubStart) && !IsTrampoline(image, Reference - 20)
    ensures RefRenames(ExampleView(image), "sel_initWithFrame:", [Reference], ExampleSections[0])
              == [Rename(StubStart, "_objc_sendMsg$initWithFrame:")]
  {
    var bv := ExampleView(image);
    SecondCandidateWins(bv, "sel_initWithFrame:", Reference, ExampleSections[0]);
    PlainNameExamples();
    RefStep(bv, "sel_initWithFrame:", [Reference], ExampleSections[0], 0);
    assert [Reference][..1] == [Reference] && [Reference][..0] == [];
  }

  /** The example scan for any image where the stub is a trampoline and the first candidate is not. */
  lemma OneSelectorScan(image: map<int, Byte>)
    requires IsTrampoline(image, StubStart) && !IsTrampoline(image, Reference - 20)
    ensures Scan(ExampleView(image)) == Some(ScanReport(1, 1, [Rename(StubStart, "_objc_sendMsg$initWithFrame:")]))
  {
    var bv := ExampleView(image);
    var m := ExampleSections[1];
    var stubs := ExampleSections[0];
    OneReferenceRenames(image);
    assert Selected(bv, m, SelectorString);
    assert bv.symbols[SelectorString] == "sel_initWithFrame:";
    assert CodeRefs(bv, SelectorString) == [Reference];
    ScanStep(bv, m, stubs, bv.strings, 0);
    assert bv.strings[..1] == bv.strings && bv.strings[..0] == [];
    assert StringRenames(bv, m, stubs, bv.strings) == [Rename(StubStart, "_objc_sendMsg$initWithFrame:")];
    assert SelectorStrings(bv, m, bv.strings) == [SelectorString];
    ExampleLookups();
    ScanOfSections(bv, m, stubs);
  }

  /**
    The example view with an empty `__objc_stubs` section: the lookup finds
    it, but `if not objc_stubs_section:` fails, so the scan stops before
    counting the selector.
  */
  lemma EmptyStubsAborts(image: map<int, Byte>)
    ensures var sections := [Section("__objc_stubs", 0x2000, 0x2000), ExampleSections[1]];
            Scan(ExampleView(image).(sections := sections)).None?
  {
    var sections := [Section("__objc_stubs", 0x2000, 0x2000), ExampleSections[1]];
    assert Lower("__objc_stubs") == "__objc_stubs";
    assert OccursAt(Lower(sections[0].name), StubsKey, 0);
    FirstMatchAt(sections, StubsKey, 0);
  }
}
