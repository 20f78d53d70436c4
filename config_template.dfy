/**
 * The configuration template of one unit-file type: its name, the glob
 * patterns it applies to, its mandatory sections, its target version and the
 * section validators discovered for it. It is built once and never changed;
 * `Parse` checks one file against it.
 *
 * What `Parse` needs from outside is given to it as parameters: whether the
 * path names an existing regular file, and what the ini-style parser made of
 * the file's content.
 */
module ConfigTemplates {
  import opened Wrappers
  import opened Diagnostics
  import opened UnitDocument
  import opened Glob
  import opened SectionTemplates

  /** The name of the synthetic section of ini semantics, never validated. */
  const DefaultSection := "DEFAULT"

  /** Python truthiness of an attribute: neither `None` nor `""`. */
  predicate Truthy(attribute: Option<string>) {
    attribute.Some? && attribute.value != ""
  }

  /** The mandatory sections absent from `present`, each reported once per
      listing, in the order of `mandatory`. */
  function MissingSections(mandatory: seq<string>, present: seq<string>, file: string): seq<Error>
  {
    if mandatory == [] then []
    else
      var n := |mandatory| - 1;
      MissingSections(mandatory[..n], present, file) +
        (if mandatory[n] in present then [] else [SectionMissing(mandatory[n], file)])
  }

  lemma ConcatAssoc(x: seq<Error>, y: seq<Error>, z: seq<Error>)
    ensures (x + y) + z == x + (y + z)
  {
  }

  class ConfigTemplate {
    const name: string
    const applicableGlobs: seq<string>
    const upstreamGeneratorInput: Option<seq<string>>
    const mandatorySections: seq<string>
    const runVersion: int
    /** What plugin discovery found for this template: the concrete
        section-validator classes, in discovery order. */
    const discovered: seq<SectionClass>
    /** The discovered section validators, instantiated with `runVersion`. */
    const sections: seq<SectionTemplate> := Instantiate(discovered, runVersion)
    /** Section name to its validator. */
    const sectionMap: map<string, SectionTemplate> := SectionMap(sections)

    /** `discovered` stands for what plugin discovery returns. */
    constructor (name: string, globs: seq<string>, upstreamInputs: Option<seq<string>>,
                 mandatory: seq<string>, version: int, discovered: seq<SectionClass>)
      ensures this.name == name && applicableGlobs == globs
      ensures upstreamGeneratorInput == upstreamInputs && mandatorySections == mandatory
      ensures runVersion == version
      ensures this.discovered == discovered && sections == Instantiate(discovered, version)
    {
      this.name := name;
      this.runVersion := version;
      this.applicableGlobs := globs;
      this.upstreamGeneratorInput := upstreamInputs;
      this.mandatorySections := mandatory;
      this.discovered := discovered;
    }

    /** `_matches`: does the path match one of the applicable globs? The
        patterns are tried in order and the first match ends the search. */
    method Matches(file: string) returns (r: bool)
      ensures r == AnyMatch(file, applicableGlobs)
      ensures r <==> exists i :: 0 <= i < |applicableGlobs| && Match(file, applicableGlobs[i])
    {
      AnyMatchExists(file, applicableGlobs);
      var i := 0;
      while i < |applicableGlobs|
        invariant 0 <= i <= |applicableGlobs|
        invariant AnyMatch(file, applicableGlobs) == AnyMatch(file, applicableGlobs[i..])
      {
        if Match(file, applicableGlobs[i]) {
          return true;
        }
        assert applicableGlobs[i..][1..] == applicableGlobs[i + 1..];
        i := i + 1;
      }
      return false;
    }

    /** `Validate(fn, section, attribute, value, stash)`: the check of one
        section (with no attribute) or of one of its attributes; its
        contract is stated by `ConfigTemplateProperties.ValidateDispatch`. */
    function Validate(file: string, section: string, attribute: Option<string>, value: Option<string>,
                      stash: Doc): seq<Error>
    {
      if section !in sectionMap then [InvalidSection(section, 1, file)]
      else if Truthy(attribute) then sectionMap[section].Validate(file, attribute.value, value, stash)
      else []
    }

    /** The `Validate` calls for the attributes of one section, in order. */
    function AttributesOutput(file: string, section: string, attrs: seq<Attribute>, stash: Doc): seq<Error>
    {
      if attrs == [] then []
      else
        var n := |attrs| - 1;
        AttributesOutput(file, section, attrs[..n], stash) +
          Validate(file, section, Some(attrs[n].key), Some(attrs[n].value), stash)
    }

    /** What one parsed section contributes: nothing for `DEFAULT`, otherwise
        the section-level `Validate` call and then one per attribute. */
    function SectionOutput(file: string, s: Section, stash: Doc): seq<Error>
    {
      if s.name == DefaultSection then []
      else Validate(file, s.name, None, None, stash) + AttributesOutput(file, s.name, s.attrs, stash)
    }

    /** What a run of parsed sections contributes, in document order. */
    function SectionsOutput(file: string, secs: seq<Section>, stash: Doc): seq<Error>
    {
      if secs == [] then []
      else
        var n := |secs| - 1;
        SectionsOutput(file, secs[..n], stash) + SectionOutput(file, secs[n], stash)
    }

    /** The diagnostics `Parse` returns for a path, given whether it is an
        existing regular file and what the parser made of it. */
    function ParseResult(file: string, isFile: bool, outcome: ParseOutcome): seq<Error>
    {
      if !AnyMatch(file, applicableGlobs) || !isFile then []
      else
        match outcome
        case HeaderError(message) => [SyntaxError(FirstLine(message), 1, file)]
        case ParsingFault(message) => [SyntaxError(FirstLine(message), 1, file)]
        case DecodeError => []
        case Parsed(doc) =>
          MissingSections(mandatorySections, SectionNames(doc), file) + SectionsOutput(file, doc, doc)
    }

    /** `Parse(fn)`: builds the list of diagnostics step by step. */
    method Parse(file: string, isFile: bool, outcome: ParseOutcome) returns (res: seq<Error>)
      ensures res == ParseResult(file, isFile, outcome)
    {
      res := [];
      var inScope := Matches(file);
      if !inScope {
        return;
      }
      if !isFile {
        return;
      }
      var doc: Doc;
      match outcome {
        case HeaderError(message) =>
          res := [SyntaxError(FirstLine(message), 1, file)];
          return;
        case ParsingFault(message) =>
          res := [SyntaxError(FirstLine(message), 1, file)];
          return;
        case DecodeError =>
          return;
        case Parsed(d) =>
          doc := d;
      }
      assert outcome == Parsed(doc);
      var missing := ReportMissing(file, SectionNames(doc));
      var found := ValidateDocument(file, doc);
      res := missing + found;
    }

    /** The loop over the mandatory sections in `Parse`: one
        `ErrorSectionMissing` per listed name that is not a parsed section. */
    method ReportMissing(file: string, present: seq<string>) returns (res: seq<Error>)
      ensures res == MissingSections(mandatorySections, present, file)
    {
      res := [];
      for i := 0 to |mandatorySections|
        invariant res == MissingSections(mandatorySections[..i], present, file)
      {
        var item := mandatorySections[i];
        assert mandatorySections[..i + 1][..i] == mandatorySections[..i];
        if item !in present {
          res := res + [SectionMissing(item, file)];
        }
      }
      assert mandatorySections[..|mandatorySections|] == mandatorySections;
    }

    /** The loop over the parsed sections in `Parse`: `DEFAULT` is skipped;
        every other section is validated itself and then attribute by
        attribute, the results appended in that order. */
    method ValidateDocument(file: string, doc: Doc) returns (res: seq<Error>)
      ensures res == SectionsOutput(file, doc, doc)
    {
      res := [];
      for j := 0 to |doc|
        invariant res == SectionsOutput(file, doc[..j], doc)
      {
        var section := doc[j];
        assert doc[..j + 1][..j] == doc[..j];
        if section.name == DefaultSection {
          continue;
        }
        var output := ValidateSection(file, section, doc);
        res := res + output;
      }
      assert doc[..|doc|] == doc;
    }

    /** One non-`DEFAULT` section in `Parse`'s loop: the section-level
        `Validate` call, then one call per attribute in attribute order. */
    method ValidateSection(file: string, section: Section, doc: Doc) returns (res: seq<Error>)
      requires section.name != DefaultSection
      ensures res == SectionOutput(file, section, doc)
    {
      res := Validate(file, section.name, None, None, doc);
      ghost var head := res;
      for k := 0 to |section.attrs|
        invariant res == head + AttributesOutput(file, section.name, section.attrs[..k], doc)
      {
        var attr := section.attrs[k];
        assert section.attrs[..k + 1][..k] == section.attrs[..k];
        var output := Validate(file, section.name, Some(attr.key), Some(attr.value), doc);
        ConcatAssoc(head, AttributesOutput(file, section.name, section.attrs[..k], doc), output);
        res := res + output;
      }
      assert section.attrs[..|section.attrs|] == section.attrs;
    }
  }
}
