# systemdlint configuration templates, modelled in Dafny

systemdlint checks systemd unit files (`.service`, `.socket`, `.mount`, …).
Each unit-file type has a configuration template (`ConfigTemplate`): a name,
the glob patterns of the files it applies to, its mandatory sections, a
target version, and the section validators found for it, keyed by the
section name each one governs. `Parse(fn)` decides whether a file is in
scope. It then turns the ini-style parser's failures into diagnostics,
reports the mandatory sections that are missing, and runs `Validate` on
every parsed section and attribute. The diagnostics are collected in
encounter order.

The model is split into these modules:

- `Diagnostics`: the diagnostic kinds (`SyntaxError`, `SectionMissing`,
  `InvalidSection`, and `Attr` for what a section validator reports).
- `UnitDocument`: what the parser hands back. This is either a parsed
  document (sections in order, each with its attributes in order) or one
  of the three failures `Parse` catches. The module also defines
  `FirstLine`, the first item of `message.split('\n')`.
- `Glob`: a matcher for `*`, `?` and literal characters, and `AnyMatch`,
  the "some pattern matches" test. Its lemmas state what the matcher
  accepts and that the order of the patterns does not matter.
- `SectionTemplates`: discovered section-validator classes, their
  instantiation with the template's version, and the section map
  `{x.Name: x for x in sections}`. In that map a name's later entry wins.
- `ConfigTemplates`: the `ConfigTemplate` class. Its fields are `const`
  because `__init__` assigns each of them once and the class never
  rebinds them. It provides the methods `Matches` (`_matches`), `Parse`,
  `ReportMissing` and `ValidateDocument`, the last two being the two loops
  of `Parse`, with `ValidateSection` as the inner loop. It also provides
  the function `Validate` and the specification functions that `Parse` is
  proved equal to (`ParseResult` and its parts).
- `ConfigTemplateProperties`: the lemmas about those functions. They cover
  the gates before parsing, the syntax-fault and binary-file cases, the
  order and exact content of the missing-section reports, and the skipping
  of `DEFAULT`. They also show that an unknown section with N attributes
  yields N + 1 `InvalidSection` diagnostics, and that a known section's
  attributes go, unchanged and in order, to the last loaded validator
  with that name.

Things outside the template are parameters of the model:

- whether the path names an existing regular file (`os.path.isfile`) is a
  boolean;
- what the parser made of the file is a `ParseOutcome`;
- the validators found by plugin discovery are the constructor's
  `discovered` list;
- each validator's attribute check is an arbitrary total function.

`Parse` is proved equal to a function of its inputs. Two calls with the same
file state and the same template therefore return the same sequence.

The original delegates to a section validator when the attribute is truthy,
not merely when it is non-null. An empty attribute name therefore yields
nothing for a known section. The model follows the code here (`Truthy`).

## Model

| member | source | states |
|---|---|---|
| `UnitDocument.FirstLine` | systemdlint/systemdlint/cls/configTemplate.py:80-85 | the message of the syntax diagnostic is a prefix of the fault message, contains no line break, and stops exactly at the first line break, if there is one |
| `Glob.LiteralMatch` | systemdlint/systemdlint/cls/configTemplate.py:66 | a pattern without wildcards matches a name if and only if the name equals it |
| `Glob.StarMatchesAll` | systemdlint/systemdlint/cls/configTemplate.py:66 | the pattern `*` matches every name |
| `Glob.StarSuffixMatch` | systemdlint/systemdlint/cls/configTemplate.py:66 | `*` followed by a literal (such as `*.service`) matches a name if and only if the name ends with that literal |
| `Glob.AnyMatchExists` | systemdlint/systemdlint/cls/configTemplate.py:64-68 | the in-order, stop-at-first-match test is true if and only if some pattern of the list matches |
| `Glob.AnyMatchOrderIrrelevant` | systemdlint/systemdlint/cls/configTemplate.py:64-68 | two pattern lists holding the same patterns, in any order or multiplicity, give the same answer |
| `ConfigTemplates.ConfigTemplate.Matches` | systemdlint/systemdlint/cls/configTemplate.py:64-68 | the loop with early return yields true exactly when some applicable glob matches the path |
| `SectionTemplates.InstantiatedSectionMap` | systemdlint/systemdlint/cls/configTemplate.py:30-42 | the section map built from the instantiated classes has exactly the discovered classes' names as keys; each name maps to a validator of that name, instantiated with the template's version, whose check is that of the last discovered class with that name |
| `ConfigTemplateProperties.TemplateValidatorsCarryVersion` | systemdlint/systemdlint/cls/configTemplate.py:25-42 | for every template, the section map is keyed by exactly the discovered classes' names, and each validator in it carries the template's run version and the check of the last discovered class of its name |
| `SectionTemplates.SectionMap` | systemdlint/systemdlint/cls/configTemplate.py:31-33 | the section map's keys are exactly the names of the loaded sections |
| `SectionTemplates.SectionMapLastWins` | systemdlint/systemdlint/cls/configTemplate.py:31-33 | a name maps to the last loaded section that carries it |
| `ConfigTemplates.ConfigTemplate.constructor` | systemdlint/systemdlint/cls/configTemplate.py:20-62 | the name, globs, upstream inputs, mandatory sections and version are stored as given; the sections are the discovered classes instantiated with the version; the class never rebinds these fields (the read-only properties) |
| `ConfigTemplateProperties.ValidateDispatch` | systemdlint/systemdlint/cls/configTemplate.py:101-107 | `Validate` on an unknown section returns exactly one `InvalidSection` at line 1, whatever the attribute. On a known section it returns the last same-named validator's result for the attribute, unchanged, when the attribute is truthy. Otherwise it returns nothing |
| `ConfigTemplates.ConfigTemplate.Parse` | systemdlint/systemdlint/cls/configTemplate.py:70-99 | the diagnostics built step by step, with early returns, equal `ParseResult`. The lemmas below state what that function is |
| `ConfigTemplates.ConfigTemplate.ReportMissing` | systemdlint/systemdlint/cls/configTemplate.py:90-92 | the loop over the mandatory sections appends exactly the missing-section reports `MissingSections` describes |
| `ConfigTemplates.ConfigTemplate.ValidateDocument` | systemdlint/systemdlint/cls/configTemplate.py:93-98 | the loop over the parsed sections appends, section by section, exactly the contributions `SectionsOutput` describes |
| `ConfigTemplates.ConfigTemplate.ValidateSection` | systemdlint/systemdlint/cls/configTemplate.py:96-98 | for a non-`DEFAULT` section the section-level check comes first, then one check per attribute, in attribute order |
| `ConfigTemplateProperties.OutOfScopeIsSilent` | systemdlint/systemdlint/cls/configTemplate.py:71-76 | a path that matches no glob yields nothing, whatever the file system and parser say, and so does a path that is not an existing file |
| `ConfigTemplateProperties.SyntaxFaultIsSingleError` | systemdlint/systemdlint/cls/configTemplate.py:78-85 | a header fault or a parsing fault yields exactly one `SyntaxError`, at line 1, for the file, and carrying the fault message's first line. No other check runs |
| `ConfigTemplateProperties.BinaryIsSilent` | systemdlint/systemdlint/cls/configTemplate.py:86-88 | undecodable content yields nothing |
| `ConfigTemplateProperties.ParsedLayout` | systemdlint/systemdlint/cls/configTemplate.py:90-99 | after a successful parse the missing-section reports come first, then the parsed sections' findings in document order |
| `ConfigTemplateProperties.MissingSectionsAppend` | systemdlint/systemdlint/cls/configTemplate.py:90-92 | the reports for a concatenated mandatory list are the reports for each part, in list order |
| `ConfigTemplateProperties.MissingSectionsSingle` | systemdlint/systemdlint/cls/configTemplate.py:90-92 | one listed name yields one `SectionMissing(name, file)` when it is not a parsed section, and nothing when it is |
| `ConfigTemplateProperties.MissingSectionsCons` | systemdlint/systemdlint/cls/configTemplate.py:90-92 | the report for the first listed name, if any, comes before the reports for all later names |
| `ConfigTemplateProperties.MissingSectionsExactly` | systemdlint/systemdlint/cls/configTemplate.py:90-92 | a diagnostic is reported if and only if it is `SectionMissing` for the file and names a mandatory section that was not parsed. There are at most as many reports as listed names, and none when every mandatory section is present |
| `ConfigTemplateProperties.SectionsOutputAppend` | systemdlint/systemdlint/cls/configTemplate.py:93-98 | the findings for a concatenated run of sections are the findings for each part, in document order |
| `ConfigTemplateProperties.AttributesOutputAppend` | systemdlint/systemdlint/cls/configTemplate.py:97-98 | the findings for a concatenated run of attributes are the findings for each part, in attribute order |
| `ConfigTemplateProperties.DefaultSectionsAreSilent` | systemdlint/systemdlint/cls/configTemplate.py:93-95 | sections named `DEFAULT` contribute nothing |
| `ConfigTemplateProperties.DefaultOnlyIsSilent` | systemdlint/systemdlint/cls/configTemplate.py:90-99 | a document with only `DEFAULT` sections, checked by a template without mandatory sections, yields nothing |
| `ConfigTemplateProperties.UnknownAttributesRepeat` | systemdlint/systemdlint/cls/configTemplate.py:97-104 | in a section the rule set does not know, each attribute yields exactly one `InvalidSection` at line 1 |
| `ConfigTemplateProperties.UnknownSectionRepeats` | systemdlint/systemdlint/cls/configTemplate.py:96-104 | an unknown non-`DEFAULT` section with N attributes yields exactly N + 1 diagnostics, all of them `InvalidSection(section, 1, file)` |
| `ConfigTemplateProperties.KnownAttributesDelegate` | systemdlint/systemdlint/cls/configTemplate.py:97-106 | in a known section, the attributes' findings are those of the last same-named validator for every attribute with a non-empty key, in order and unchanged |
| `ConfigTemplateProperties.KnownSectionDelegates` | systemdlint/systemdlint/cls/configTemplate.py:96-107 | a known section adds nothing of its own; its findings are exactly the delegated attribute findings |

## Left out

- File input and output are not modelled. `os.path.isfile` is a boolean parameter. `open` and reading the file are replaced by the parser outcome. Errors from `open` itself (such as permissions) are not modelled.
- The parser is not modelled: `SystemdUnitParser` and `configparser`'s syntax rules, duplicate-section merging and the merging of `DEFAULT` values into every section. The parsed document is taken as the parser lists it. The model does not rely on its section names being distinct.
- Only the three failures `Parse` catches are represented. Any other exception the parser raises propagates out of `Parse` in the original and is not modelled.
- Plugin discovery is not modelled: `Helper.GetSubClasses`, the `issubclass` test and the exclusion of the base `SectionTemplate` class. The constructor receives the concrete classes that discovery would return.
- The section validators' own rules (`SectionTemplate.Validate`) are external. Each one is an arbitrary total function of the version, file, attribute, value and document.
- `Glob.Match`: reads only `*`, `?` and literal characters. `fnmatch`'s character classes (`[...]`, `[!...]`) and `os.path.normcase` are not modelled, because a full shell-glob translation is outside this core.
- The default version `10e9` is a float in the original. The version is an integer parameter here, with no default, because the core only passes it on.
- `ConfigTemplates.ConfigTemplate.constructor`: requires the mandatory sections as a sequence, possibly empty. The original's default of `None` would raise at line 90 when a file reaches the mandatory-section loop. The model leaves that failure out rather than invent a rule for it.
- `__repr__` is not modelled. `UpstreamGeneratorInput` is stored but not used, exactly as in the original.
- Aliasing of the stored lists is not modelled. The original keeps `globs` and `mandatory_sections` by reference and `ApplicableGlobs` and `MandatorySections` return those same lists, so a caller that mutates one in place changes what later `_matches` and mandatory-section checks see. The model stores them as immutable sequences.
