/**
 * What `ConfigTemplate.Parse` promises, stated about `ParseResult`, the
 * function its result is proved equal to, and about the pieces that
 * function is made of.
 */
module ConfigTemplateProperties {
  import opened Wrappers
  import opened Diagnostics
  import opened UnitDocument
  import opened Glob
  import opened SectionTemplates
  import opened ConfigTemplates

  // ---------------------------------------------------------------------
  // Validate
  // ---------------------------------------------------------------------

  /** An unknown section is reported once, at line 1, whatever the attribute;
      for a known section a truthy attribute goes, with its value and the
      document, to the last loaded validator carrying that name and its
      findings come back unchanged, and a falsy one (`None` or `""`) yields
      nothing. */
  lemma ValidateDispatch(t: ConfigTemplate, file: string, section: string, attribute: Option<string>,
                         value: Option<string>, stash: Doc)
    ensures section !in Names(t.sections) ==>
      t.Validate(file, section, attribute, value, stash) == [InvalidSection(section, 1, file)]
    ensures forall j :: IsLastNamed(t.sections, section, j) ==>
      t.Validate(file, section, attribute, value, stash) ==
        if Truthy(attribute) then t.sections[j].Validate(file, attribute.value, value, stash) else []
  {
    if section in t.sectionMap {
      SectionMapLastWins(t.sections, section);
    }
  }

  /** Every template, however it was built, keys its section map by exactly
      the discovered classes' names; each validator in it was instantiated
      with the template's version and checks with the last discovered class
      of its name. */
  lemma TemplateValidatorsCarryVersion(t: ConfigTemplate, name: string)
    ensures t.sectionMap.Keys == ClassNames(t.discovered)
    ensures name in t.sectionMap ==>
      t.sectionMap[name].name == name && t.sectionMap[name].version == t.runVersion &&
      exists j :: 0 <= j < |t.discovered| && t.discovered[j].name == name &&
        t.sectionMap[name].check == t.discovered[j].check &&
        forall j' :: j < j' < |t.discovered| ==> t.discovered[j'].name != name
  {
    InstantiatedSectionMap(t.discovered, t.runVersion, name);
  }

  // ---------------------------------------------------------------------
  // The gates before the file is read, and the parser's failures
  // ---------------------------------------------------------------------

  /** A path outside the template's globs yields nothing, whatever the file
      system and the parser would say; so does a path that is not an
      existing regular file. */
  lemma OutOfScopeIsSilent(t: ConfigTemplate, file: string, isFile: bool, outcome: ParseOutcome)
    requires !AnyMatch(file, t.applicableGlobs) || !isFile
    ensures t.ParseResult(file, isFile, outcome) == []
  {
  }

  /** A malformed section header or any other syntax fault yields exactly one
      syntax error: at line 1, for the file, carrying the fault message up to
      its first line break. Nothing else is checked. */
  lemma SyntaxFaultIsSingleError(t: ConfigTemplate, file: string, outcome: ParseOutcome)
    requires AnyMatch(file, t.applicableGlobs)
    requires outcome.HeaderError? || outcome.ParsingFault?
    ensures var r := t.ParseResult(file, true, outcome);
      |r| == 1 && r[0].SyntaxError? && r[0].line == 1 && r[0].file == file &&
      r[0].message <= outcome.message && '\n' !in r[0].message &&
      (|r[0].message| < |outcome.message| ==> outcome.message[|r[0].message|] == '\n')
  {
  }

  /** Content that cannot be decoded as text is skipped without a finding. */
  lemma BinaryIsSilent(t: ConfigTemplate, file: string)
    ensures t.ParseResult(file, true, DecodeError) == []
  {
  }

  /** After a successful parse the missing mandatory sections come first,
      then the findings of the parsed sections in document order. */
  lemma ParsedLayout(t: ConfigTemplate, file: string, doc: Doc)
    requires AnyMatch(file, t.applicableGlobs)
    ensures t.ParseResult(file, true, Parsed(doc)) ==
      MissingSections(t.mandatorySections, SectionNames(doc), file) + t.SectionsOutput(file, doc, doc)
  {
  }

  // ---------------------------------------------------------------------
  // Mandatory sections
  // ---------------------------------------------------------------------

  /** Reports for a longer mandatory list are the reports for its parts, in
      list order. */
  lemma {:induction false} MissingSectionsAppend(a: seq<string>, b: seq<string>, present: seq<string>, file: string)
    ensures MissingSections(a + b, present, file) ==
      MissingSections(a, present, file) + MissingSections(b, present, file)
  {
    if b == [] {
      assert a + b == a;
    } else {
      var n := |b| - 1;
      assert (a + b)[..|a + b| - 1] == a + b[..n];
      assert (a + b)[|a + b| - 1] == b[n];
      MissingSectionsAppend(a, b[..n], present, file);
    }
  }

  /** One listed name is reported once if it is absent and not at all if it
      is present; with MissingSectionsAppend this fixes one report per
      absent listing, in list order. */
  lemma MissingSectionsSingle(m: string, present: seq<string>, file: string)
    ensures MissingSections([m], present, file) == if m in present then [] else [SectionMissing(m, file)]
  {
    assert [m][..0] == [];
  }

  /** The list's first name is reported (or not) before all the others. */
  lemma MissingSectionsCons(m: string, rest: seq<string>, present: seq<string>, file: string)
    ensures MissingSections([m] + rest, present, file) ==
      (if m in present then [] else [SectionMissing(m, file)]) + MissingSections(rest, present, file)
  {
    MissingSectionsAppend([m], rest, present, file);
    MissingSectionsSingle(m, present, file);
  }

  /** Exactly the absent mandatory names are reported, as `SectionMissing`
      for the file; present ones produce nothing. */
  lemma {:induction false} MissingSectionsExactly(mandatory: seq<string>, present: seq<string>, file: string)
    ensures forall e :: e in MissingSections(mandatory, present, file) <==>
      e.SectionMissing? && e.file == file && e.section in mandatory && e.section !in present
    ensures |MissingSections(mandatory, present, file)| <= |mandatory|
    ensures (forall m :: m in mandatory ==> m in present) ==> MissingSections(mandatory, present, file) == []
  {
    if mandatory != [] {
      var n := |mandatory| - 1;
      MissingSectionsExactly(mandatory[..n], present, file);
      assert mandatory == mandatory[..n] + [mandatory[n]];
      forall m ensures m in mandatory <==> m in mandatory[..n] || m == mandatory[n] {
      }
    }
  }

  // ---------------------------------------------------------------------
  // Parsed sections
  // ---------------------------------------------------------------------

  lemma SectionsOutputSnoc(t: ConfigTemplate, file: string, secs: seq<Section>, s: Section, stash: Doc)
    ensures t.SectionsOutput(file, secs + [s], stash) == t.SectionsOutput(file, secs, stash) + t.SectionOutput(file, s, stash)
  {
    assert (secs + [s])[..|secs|] == secs;
  }

  /** The contribution of a run of sections is that of its parts, in
      document order. */
  lemma {:induction false} SectionsOutputAppend(t: ConfigTemplate, file: string, a: seq<Section>, b: seq<Section>, stash: Doc)
    ensures t.SectionsOutput(file, a + b, stash) == t.SectionsOutput(file, a, stash) + t.SectionsOutput(file, b, stash)
  {
    if b == [] {
      assert a + b == a;
    } else {
      var n := |b| - 1;
      assert b == b[..n] + [b[n]];
      assert a + b == (a + b[..n]) + [b[n]];
      SectionsOutputSnoc(t, file, a + b[..n], b[n], stash);
      SectionsOutputSnoc(t, file, b[..n], b[n], stash);
      SectionsOutputAppend(t, file, a, b[..n], stash);
      ConcatAssoc(t.SectionsOutput(file, a, stash), t.SectionsOutput(file, b[..n], stash), t.SectionOutput(file, b[n], stash));
    }
  }

  lemma AttributesOutputSnoc(t: ConfigTemplate, file: string, section: string, attrs: seq<Attribute>,
                             x: Attribute, stash: Doc)
    ensures t.AttributesOutput(file, section, attrs + [x], stash) ==
      t.AttributesOutput(file, section, attrs, stash) + t.Validate(file, section, Some(x.key), Some(x.value), stash)
  {
    assert (attrs + [x])[..|attrs|] == attrs;
  }

  /** The contribution of a run of attributes is that of its parts, in
      attribute order. */
  lemma {:induction false} AttributesOutputAppend(t: ConfigTemplate, file: string, section: string,
                                                  a: seq<Attribute>, b: seq<Attribute>, stash: Doc)
    ensures t.AttributesOutput(file, section, a + b, stash) ==
      t.AttributesOutput(file, section, a, stash) + t.AttributesOutput(file, section, b, stash)
  {
    if b == [] {
      assert a + b == a;
    } else {
      var n := |b| - 1;
      assert b == b[..n] + [b[n]];
      assert a + b == (a + b[..n]) + [b[n]];
      AttributesOutputSnoc(t, file, section, a + b[..n], b[n], stash);
      AttributesOutputSnoc(t, file, section, b[..n], b[n], stash);
      AttributesOutputAppend(t, file, section, a, b[..n], stash);
      ConcatAssoc(t.AttributesOutput(file, section, a, stash), t.AttributesOutput(file, section, b[..n], stash),
        t.Validate(file, section, Some(b[n].key), Some(b[n].value), stash));
    }
  }

  /** A document made only of `DEFAULT` sections, checked against a template
      without mandatory sections, yields nothing. */
  lemma {:induction false} DefaultOnlyIsSilent(t: ConfigTemplate, file: string, doc: Doc)
    requires AnyMatch(file, t.applicableGlobs)
    requires t.mandatorySections == []
    requires forall i :: 0 <= i < |doc| ==> doc[i].name == DefaultSection
    ensures t.ParseResult(file, true, Parsed(doc)) == []
  {
    DefaultSectionsAreSilent(t, file, doc, doc);
  }

  lemma {:induction false} DefaultSectionsAreSilent(t: ConfigTemplate, file: string, secs: seq<Section>, stash: Doc)
    requires forall i :: 0 <= i < |secs| ==> secs[i].name == DefaultSection
    ensures t.SectionsOutput(file, secs, stash) == []
  {
    if secs != [] {
      var n := |secs| - 1;
      DefaultSectionsAreSilent(t, file, secs[..n], stash);
    }
  }

  /** Every attribute of a section the rule set does not know is reported
      again as an invalid section. */
  lemma {:induction false} UnknownAttributesRepeat(t: ConfigTemplate, file: string, section: string,
                                                   attrs: seq<Attribute>, stash: Doc)
    requires section !in Names(t.sections)
    ensures var r := t.AttributesOutput(file, section, attrs, stash);
      |r| == |attrs| && forall i :: 0 <= i < |r| ==> r[i] == InvalidSection(section, 1, file)
  {
    if attrs != [] {
      ValidateDispatch(t, file, section, Some(attrs[|attrs| - 1].key), Some(attrs[|attrs| - 1].value), stash);
      UnknownAttributesRepeat(t, file, section, attrs[..|attrs| - 1], stash);
    }
  }

  /** An unknown section with N attributes yields exactly N + 1
      `InvalidSection` findings (one for the section, one per attribute),
      and nothing else. */
  lemma UnknownSectionRepeats(t: ConfigTemplate, file: string, s: Section, stash: Doc)
    requires s.name !in Names(t.sections) && s.name != DefaultSection
    ensures var r := t.SectionOutput(file, s, stash);
      |r| == |s.attrs| + 1 && forall i :: 0 <= i < |r| ==> r[i] == InvalidSection(s.name, 1, file)
  {
    UnknownAttributesRepeat(t, file, s.name, s.attrs, stash);
    ValidateDispatch(t, file, s.name, None, None, stash);
  }

  /** The findings of validator `v` for the attributes with a non-empty key,
      in order: what a known section's attributes are meant to yield. */
  function Delegated(v: SectionTemplate, file: string, attrs: seq<Attribute>, stash: Doc): seq<Error>
  {
    if attrs == [] then []
    else
      (if attrs[0].key == "" then [] else v.Validate(file, attrs[0].key, Some(attrs[0].value), stash)) +
        Delegated(v, file, attrs[1..], stash)
  }

  lemma {:induction false} KnownAttributesDelegate(t: ConfigTemplate, file: string, section: string, j: int,
                                                   attrs: seq<Attribute>, stash: Doc)
    requires IsLastNamed(t.sections, section, j)
    ensures t.AttributesOutput(file, section, attrs, stash) == Delegated(t.sections[j], file, attrs, stash)
  {
    if attrs != [] {
      var head, rest := attrs[0], attrs[1..];
      var first := t.Validate(file, section, Some(head.key), Some(head.value), stash);
      KnownAttributesDelegate(t, file, section, j, rest, stash);
      assert attrs == [head] + rest;
      AttributesOutputAppend(t, file, section, [head], rest, stash);
      AttributesOutputSnoc(t, file, section, [], head, stash);
      assert [] + [head] == [head];
      assert [] + first == first;
      ValidateDispatch(t, file, section, Some(head.key), Some(head.value), stash);
      assert first == if head.key == "" then [] else t.sections[j].Validate(file, head.key, Some(head.value), stash);
    }
  }

  /** A known section contributes nothing itself; each attribute with a
      non-empty key is handed, in order, to the last loaded validator with
      the section's name, and its findings are passed on unchanged. */
  lemma KnownSectionDelegates(t: ConfigTemplate, file: string, s: Section, j: int, stash: Doc)
    requires IsLastNamed(t.sections, s.name, j) && s.name != DefaultSection
    ensures t.SectionOutput(file, s, stash) == Delegated(t.sections[j], file, s.attrs, stash)
  {
    KnownAttributesDelegate(t, file, s.name, j, s.attrs, stash);
    ValidateDispatch(t, file, s.name, None, None, stash);
  }
}
