/**
  `register_plugin`: find `__objc_methname` and `__objc_stubs` among the
  sections, then walk the string table. Every selector string inside
  `__objc_methname` is counted, and each of its code references is handed to
  the per-reference search; the references that lead to a rename are counted
  as trampolines.
*/
module Plugin {

  import opened Wrappers
  import opened Host
  import opened SelectorNames
  import opened Trampolines
  import opened Locator

  const MethnameKey: string := "__objc_methname"
  const StubsKey: string := "__objc_stubs"

  /** `str.lower()` on one character; only the ASCII letters are folded. */
  function LowerChar(c: char): (d: char)
    ensures 'A' <= c <= 'Z' ==> 'a' <= d <= 'z' && d as int - c as int == 32
    ensures !('A' <= c <= 'Z') ==> d == c
  {
    if 'A' <= c <= 'Z' then (c as int + 32) as char else c
  }

  function Lower(s: string): (r: string)
    ensures |r| == |s|
    ensures forall i :: 0 <= i < |s| ==> r[i] == LowerChar(s[i])
  {
    seq(|s|, i requires 0 <= i < |s| => LowerChar(s[i]))
  }

  /** Lowering is idempotent and leaves no ASCII capital behind. */
  lemma LowerIdempotent(s: string)
    ensures Lower(Lower(s)) == Lower(s)
    ensures forall i :: 0 <= i < |s| ==> !('A' <= Lower(s)[i] <= 'Z')
  {
  }

  /** Python's `t in s` on strings: `t` occurs in `s` as a contiguous substring. */
  predicate Contains(s: string, t: string)
  {
    exists i :: 0 <= i <= |s| - |t| && OccursAt(s, t, i)
  }

  /** `t` occurs in `s` starting at index `i`. */
  predicate OccursAt(s: string, t: string, i: int)
    requires 0 <= i <= |s| - |t|
  {
    s[i..i + |t|] == t
  }

  /** The test in the section loops. */
  predicate MatchesKey(s: Section, key: string)
  {
    Contains(Lower(s.name), key)
  }

  /** The index of the first section whose name matches, or `|sections|`. */
  function FirstMatch(sections: seq<Section>, key: string): (i: nat)
    ensures i <= |sections|
    ensures i < |sections| ==> MatchesKey(sections[i], key)
    ensures forall k :: 0 <= k < i ==> !MatchesKey(sections[k], key)
  {
    if sections == [] then 0
    else if MatchesKey(sections[0], key) then 0
    else 1 + FirstMatch(sections[1..], key)
  }

  /** The section the lookup loop settles on. */
  function SectionLookup(sections: seq<Section>, key: string): Option<Section>
  {
    var i := FirstMatch(sections, key);
    if i < |sections| then Some(sections[i]) else None
  }

  /** The lookup finds a section exactly when some section matches, and then the first one. */
  lemma SectionLookupMeaning(sections: seq<Section>, key: string)
    ensures SectionLookup(sections, key).None? <==>
              forall k :: 0 <= k < |sections| ==> !MatchesKey(sections[k], key)
    ensures SectionLookup(sections, key).Some? ==>
              exists i :: 0 <= i < |sections| && sections[i] == SectionLookup(sections, key).value
                && MatchesKey(sections[i], key)
                && forall k :: 0 <= k < i ==> !MatchesKey(sections[k], key)
  {
    var i := FirstMatch(sections, key);
    if i < |sections| {
      assert sections[i] == SectionLookup(sections, key).value;
    }
  }

  /** The `for section in bv.sections.values(): ... break` loop. */
  method FindSection(sections: seq<Section>, key: string) returns (found: Option<Section>)
    ensures found == SectionLookup(sections, key)
  {
    found := None;
    var i := 0;
    while i < |sections|
      invariant 0 <= i <= |sections|
      invariant forall k :: 0 <= k < i ==> !MatchesKey(sections[k], key)
    {
      if Contains(Lower(sections[i].name), key) {
        found := Some(sections[i]);
        break;
      }
      i := i + 1;
    }
    FirstMatchAt(sections, key, i);
  }

  lemma FirstMatchAt(sections: seq<Section>, key: string, n: nat)
    requires n <= |sections|
    requires forall k :: 0 <= k < n ==> !MatchesKey(sections[k], key)
    requires n < |sections| ==> MatchesKey(sections[n], key)
    ensures FirstMatch(sections, key) == n
  {
  }

  /** `if not section:` passes: a section was found and it is not empty. */
  predicate Found(found: Option<Section>)
  {
    found.Some? && NonEmpty(found.value)
  }

  /** Some section matches `key`, and the first one that does is not empty. */
  predicate FirstMatchNonEmpty(sections: seq<Section>, key: string)
  {
    exists i :: 0 <= i < |sections| && MatchesKey(sections[i], key) && NonEmpty(sections[i])
      && forall k :: 0 <= k < i ==> !MatchesKey(sections[k], key)
  }

  /** The lookup passes `if not section:` exactly when the first matching section is not empty. */
  lemma FoundMeaning(sections: seq<Section>, key: string)
    ensures Found(SectionLookup(sections, key)) <==> FirstMatchNonEmpty(sections, key)
  {
    if FirstMatchNonEmpty(sections, key) {
      var i :| 0 <= i < |sections| && MatchesKey(sections[i], key) && NonEmpty(sections[i])
                && forall k :: 0 <= k < i ==> !MatchesKey(sections[k], key);
      FirstMatchAt(sections, key, i);
    }
    if Found(SectionLookup(sections, key)) {
      var i := FirstMatch(sections, key);
      assert 0 <= i < |sections| && MatchesKey(sections[i], key) && NonEmpty(sections[i]);
    }
  }

  /** The counters and the rename log a completed scan leaves behind. */
  datatype ScanReport = ScanReport(selectorCount: nat, trampolineCount: nat, renames: seq<Rename>)

  /** A string the scan counts as a selector: inside `__objc_methname` and named `sel_…`. */
  predicate Selected(bv: BinaryView, methname: Section, start: int)
  {
    InSection(methname, start) && IsSelectorString(bv.symbols, start)
  }

  /** The selector strings among `strings`, in order. */
  function SelectorStrings(bv: BinaryView, methname: Section, strings: seq<int>): seq<int>
  {
    if strings == [] then []
    else
      var last := strings[|strings| - 1];
      SelectorStrings(bv, methname, strings[..|strings| - 1]) + (if Selected(bv, methname, last) then [last] else [])
  }

  /** The renames the references in `refs` lead to, in order. */
  function RefRenames(bv: BinaryView, selectorName: string, refs: seq<int>, stubs: Section): seq<Rename>
  {
    if refs == [] then []
    else
      var outcome := ReferenceOutcome(bv, selectorName, refs[|refs| - 1], stubs);
      RefRenames(bv, selectorName, refs[..|refs| - 1], stubs) + (if outcome.Some? then [outcome.value] else [])
  }

  /** The renames the selector strings among `strings` lead to, in order. */
  function StringRenames(bv: BinaryView, methname: Section, stubs: Section, strings: seq<int>): seq<Rename>
  {
    if strings == [] then []
    else
      var last := strings[|strings| - 1];
      StringRenames(bv, methname, stubs, strings[..|strings| - 1])
        + (if Selected(bv, methname, last) then RefRenames(bv, bv.symbols[last], CodeRefs(bv, last), stubs) else [])
  }

  /** The number of code references to the selector strings among `strings`. */
  function SelectorRefCount(bv: BinaryView, methname: Section, strings: seq<int>): nat
  {
    if strings == [] then 0
    else
      var last := strings[|strings| - 1];
      SelectorRefCount(bv, methname, strings[..|strings| - 1])
        + (if Selected(bv, methname, last) then |CodeRefs(bv, last)| else 0)
  }

  /** Extending the scanned strings by one extends the selector list by at most that string. */
  lemma ScanStep(bv: BinaryView, methname: Section, stubs: Section, strings: seq<int>, i: nat)
    requires i < |strings|
    ensures SelectorStrings(bv, methname, strings[..i + 1]) ==
              SelectorStrings(bv, methname, strings[..i]) + (if Selected(bv, methname, strings[i]) then [strings[i]] else [])
    ensures StringRenames(bv, methname, stubs, strings[..i + 1]) ==
              StringRenames(bv, methname, stubs, strings[..i])
                + (if Selected(bv, methname, strings[i]) then RefRenames(bv, bv.symbols[strings[i]], CodeRefs(bv, strings[i]), stubs) else [])
  {
    assert strings[..i + 1][..i] == strings[..i];
  }

  /** Extending the processed references by one appends that reference's rename, if any. */
  lemma RefStep(bv: BinaryView, selectorName: string, refs: seq<int>, stubs: Section, j: nat)
    requires j < |refs|
    ensures RefRenames(bv, selectorName, refs[..j + 1], stubs) ==
              RefRenames(bv, selectorName, refs[..j], stubs)
                + (var o := ReferenceOutcome(bv, selectorName, refs[j], stubs); if o.Some? then [o.value] else [])
  {
    assert refs[..j + 1][..j] == refs[..j];
  }

  /** The whole plugin command: `None` when it returns early for a missing or empty section. */
  function Scan(bv: BinaryView): Option<ScanReport>
  {
    var methname := SectionLookup(bv.sections, MethnameKey);
    var stubs := SectionLookup(bv.sections, StubsKey);
    if !Found(methname) || !Found(stubs) then None
    else
      var renames := StringRenames(bv, methname.value, stubs.value, bv.strings);
      Some(ScanReport(|SelectorStrings(bv, methname.value, bv.strings)|, |renames|, renames))
  }

  /** The inner loop over a selector's code references: the renames they lead to, in order. */
  method ProcessReferences(bv: BinaryView, selectorName: string, refs: seq<int>, stubs: Section)
    returns (found: seq<Rename>)
    ensures found == RefRenames(bv, selectorName, refs, stubs)
  {
    found := [];
    for j := 0 to |refs|
      invariant found == RefRenames(bv, selectorName, refs[..j], stubs)
    {
      RefStep(bv, selectorName, refs, stubs, j);
      var renamed;
      ghost var tried;
      renamed, tried := ProcessSelectorReference(bv, selectorName, refs[j], stubs);
      if renamed.Some? {
        found := found + [renamed.value];
      }
    }
    assert refs[..|refs|] == refs;
  }

  /** The report of a scan that found both sections. */
  lemma ScanOfSections(bv: BinaryView, methname: Section, stubs: Section)
    requires SectionLookup(bv.sections, MethnameKey) == Some(methname) && NonEmpty(methname)
    requires SectionLookup(bv.sections, StubsKey) == Some(stubs) && NonEmpty(stubs)
    ensures Scan(bv) == Some(ScanReport(|SelectorStrings(bv, methname, bv.strings)|,
                                        |StringRenames(bv, methname, stubs, bv.strings)|,
                                        StringRenames(bv, methname, stubs, bv.strings)))
  {
  }

  /**
    The plugin command. The two section loops run first; the scan stops if
    either found nothing or an empty section, and otherwise counts selectors and renamed
    trampolines in nested loops over strings and their code references.
  */
  method RegisterPlugin(bv: BinaryView) returns (report: Option<ScanReport>)
    ensures report == Scan(bv)
  {
    var methname := FindSection(bv.sections, MethnameKey);
    var stubs := FindSection(bv.sections, StubsKey);
    if !Found(methname) {
      return None;
    }
    if !Found(stubs) {
      return None;
    }
    var m := methname.value;
    var s := stubs.value;
    var selectorCount: nat := 0;
    var trampolineCount: nat := 0;
    var renames: seq<Rename> := [];
    for i := 0 to |bv.strings|
      invariant selectorCount == |SelectorStrings(bv, m, bv.strings[..i])|
      invariant renames == StringRenames(bv, m, s, bv.strings[..i])
      invariant trampolineCount == |renames|
    {
      var start := bv.strings[i];
      ScanStep(bv, m, s, bv.strings, i);
      if m.start <= start < m.end && IsSelectorString(bv.symbols, start) {
        selectorCount := selectorCount + 1;
        var name := bv.symbols[start];
        var found := ProcessReferences(bv, name, CodeRefs(bv, start), s);
        trampolineCount := trampolineCount + |found|;
        renames := renames + found;
      }
    }
    assert bv.strings[..|bv.strings|] == bv.strings;
    return Some(ScanReport(selectorCount, trampolineCount, renames));
  }

  /**
    The scan stops early exactly when, for one of the two keys, no section
    matches or the first section that matches is empty.
  */
  lemma ScanAbortsWithoutSections(bv: BinaryView)
    ensures Scan(bv).None? <==>
              !FirstMatchNonEmpty(bv.sections, MethnameKey) || !FirstMatchNonEmpty(bv.sections, StubsKey)
    ensures (forall k :: 0 <= k < |bv.sections| ==> !MatchesKey(bv.sections[k], MethnameKey)) ==> Scan(bv).None?
    ensures (forall k :: 0 <= k < |bv.sections| ==> !MatchesKey(bv.sections[k], StubsKey)) ==> Scan(bv).None?
  {
    FoundMeaning(bv.sections, MethnameKey);
    FoundMeaning(bv.sections, StubsKey);
  }

  /** The positions in `strings` the scan counts as selectors. */
  function SelectedIndices(bv: BinaryView, methname: Section, strings: seq<int>): set<int>
  {
    set i | 0 <= i < |strings| && Selected(bv, methname, strings[i])
  }

  /**
    `selector_count` counts the selector strings: one per position of the
    string table holding a selector inside `__objc_methname`.
  */
  lemma {:induction false} SelectorCountMeaning(bv: BinaryView, methname: Section, strings: seq<int>)
    ensures |SelectorStrings(bv, methname, strings)| == |SelectedIndices(bv, methname, strings)|
    decreases |strings|
  {
    if strings != [] {
      var n := |strings| - 1;
      var init := strings[..n];
      SelectorCountMeaning(bv, methname, init);
      var all := SelectedIndices(bv, methname, strings);
      var before := SelectedIndices(bv, methname, init);
      forall i | 0 <= i < n ensures strings[i] == init[i] { }
      if Selected(bv, methname, strings[n]) {
        assert all == before + {n};
        assert |all| == |before| + 1;
      } else {
        assert all == before;
      }
    }
  }

  /** The selector list holds exactly the selector strings of the table. */
  lemma {:induction false} SelectorStringsMembers(bv: BinaryView, methname: Section, strings: seq<int>)
    ensures forall a :: a in SelectorStrings(bv, methname, strings) <==> a in strings && Selected(bv, methname, a)
    decreases |strings|
  {
    if strings != [] {
      var n := |strings| - 1;
      SelectorStringsMembers(bv, methname, strings[..n]);
      assert strings == strings[..n] + [strings[n]];
    }
  }

  /** What justifies a rename: the reference lies in the stubs and the renamed start is an accepted candidate for it. */
  predicate FromReference(bv: BinaryView, selectorName: string, ref: int, stubs: Section, r: Rename)
  {
    && InSection(stubs, ref)
    && r.address in Candidates(ref)
    && IsTrampoline(bv.image, r.address) && r.address in bv.bindable
    && r.name == TrampolineName(selectorName)
  }

  /** Each reference leads to at most one rename, and each rename comes from one of the references. */
  lemma {:induction false} RefRenamesMeaning(bv: BinaryView, selectorName: string, refs: seq<int>, stubs: Section)
    ensures |RefRenames(bv, selectorName, refs, stubs)| <= |refs|
    ensures forall r :: r in RefRenames(bv, selectorName, refs, stubs) ==>
              exists ref :: ref in refs && FromReference(bv, selectorName, ref, stubs, r)
    decreases |refs|
  {
    if refs != [] {
      var n := |refs| - 1;
      var init := refs[..n];
      RefRenamesMeaning(bv, selectorName, init, stubs);
      ReferenceOutcomeMeaning(bv, selectorName, refs[n], stubs);
      var o := ReferenceOutcome(bv, selectorName, refs[n], stubs);
      forall r | r in RefRenames(bv, selectorName, refs, stubs)
        ensures exists ref :: ref in refs && FromReference(bv, selectorName, ref, stubs, r)
      {
        if r in RefRenames(bv, selectorName, init, stubs) {
          var ref :| ref in init && FromReference(bv, selectorName, ref, stubs, r);
          assert ref in refs;
        } else {
          assert o.Some? && r == o.value;
          assert refs[n] in refs;
          assert FromReference(bv, selectorName, refs[n], stubs, r);
        }
      }
    }
  }

  /**
    Over the strings scanned so far: there are no more renames than code
    references to selector strings, and every rename was justified by a
    reference to one of those selector strings and named after it.
  */
  lemma {:induction false} StringRenamesMeaning(bv: BinaryView, methname: Section, stubs: Section, strings: seq<int>)
    ensures |StringRenames(bv, methname, stubs, strings)| <= SelectorRefCount(bv, methname, strings)
    ensures forall r :: r in StringRenames(bv, methname, stubs, strings) ==>
              exists a, ref :: a in strings && Selected(bv, methname, a) && ref in CodeRefs(bv, a)
                && FromReference(bv, bv.symbols[a], ref, stubs, r)
    decreases |strings|
  {
    if strings != [] {
      var n := |strings| - 1;
      var init := strings[..n];
      var last := strings[n];
      StringRenamesMeaning(bv, methname, stubs, init);
      if Selected(bv, methname, last) {
        RefRenamesMeaning(bv, bv.symbols[last], CodeRefs(bv, last), stubs);
      }
      forall r | r in StringRenames(bv, methname, stubs, strings)
        ensures exists a, ref :: a in strings && Selected(bv, methname, a) && ref in CodeRefs(bv, a)
                  && FromReference(bv, bv.symbols[a], ref, stubs, r)
      {
        if r in StringRenames(bv, methname, stubs, init) {
          var a, ref :| a in init && Selected(bv, methname, a) && ref in CodeRefs(bv, a)
                         && FromReference(bv, bv.symbols[a], ref, stubs, r);
          assert a in strings;
        } else {
          assert Selected(bv, methname, last);
          var ref :| ref in CodeRefs(bv, last) && FromReference(bv, bv.symbols[last], ref, stubs, r);
          assert last in strings;
        }
      }
    }
  }

  /**
    A completed scan reports as many selectors as there are selector strings
    inside `__objc_methname`, at most one renamed trampoline per code
    reference to them, and only renames justified by such a reference.
  */
  lemma ScanReportMeaning(bv: BinaryView)
    requires Scan(bv).Some?
    ensures var m := SectionLookup(bv.sections, MethnameKey).value;
            var s := SectionLookup(bv.sections, StubsKey).value;
            var rep := Scan(bv).value;
            && rep.selectorCount == |SelectedIndices(bv, m, bv.strings)|
            && rep.trampolineCount == |rep.renames| <= SelectorRefCount(bv, m, bv.strings)
            && forall r :: r in rep.renames ==>
                 exists a, ref :: a in bv.strings && Selected(bv, m, a) && ref in CodeRefs(bv, a)
                   && FromReference(bv, bv.symbols[a], ref, s, r)
  {
    var m := SectionLookup(bv.sections, MethnameKey).value;
    var s := SectionLookup(bv.sections, StubsKey).value;
    SelectorCountMeaning(bv, m, bv.strings);
    StringRenamesMeaning(bv, m, s, bv.strings);
  }
}
