/**
 * The section validators a template is assembled from. The concrete rule
 * sets are external: each one is represented by the section name it governs
 * and its attribute check, an arbitrary total function of the version it was
 * instantiated with, the file name, the attribute, the raw value and the
 * whole parsed document.
 */
module SectionTemplates {
  import opened Wrappers
  import opened Diagnostics
  import opened UnitDocument

  /** An attribute check: (version, file, attribute, value, parsed document) to findings. */
  type SectionCheck = (int, string, string, Option<string>, Doc) -> seq<Error>

  /** A discovered, concrete section-validator class, not yet instantiated. */
  datatype SectionClass = SectionClass(name: string, check: SectionCheck)

  /** A section validator instantiated with a target version. */
  datatype SectionTemplate = SectionTemplate(name: string, version: int, check: SectionCheck) {

    /** The validator's verdict on one attribute of its section. */
    function Validate(file: string, attribute: string, value: Option<string>, stash: Doc): seq<Error> {
      check(version, file, attribute, value, stash)
    }
  }

  /** Instantiates every discovered class with the template's version, in
      discovery order. */
  function Instantiate(classes: seq<SectionClass>, version: int): (sections: seq<SectionTemplate>)
    ensures |sections| == |classes|
    ensures forall i :: 0 <= i < |classes| ==>
      sections[i].name == classes[i].name && sections[i].version == version && sections[i].check == classes[i].check
  {
    seq(|classes|, i requires 0 <= i < |classes| => SectionTemplate(classes[i].name, version, classes[i].check))
  }

  /** The names of the sections, as a set. */
  function Names(sections: seq<SectionTemplate>): set<string> {
    set i | 0 <= i < |sections| :: sections[i].name
  }

  /** Position `j` holds the last section in the list named `name`. */
  predicate IsLastNamed(sections: seq<SectionTemplate>, name: string, j: int) {
    0 <= j < |sections| && sections[j].name == name &&
    forall j' :: j < j' < |sections| ==> sections[j'].name != name
  }

  /** The dictionary `{x.Name: x for x in sections}`: its keys are exactly
      the names of the sections (which entry a name maps to is stated by
      SectionMapLastWins). */
  function SectionMap(sections: seq<SectionTemplate>): (m: map<string, SectionTemplate>)
    ensures m.Keys == Names(sections)
  {
    if sections == [] then map[]
    else
      var n := |sections| - 1;
      assert Names(sections) == Names(sections[..n]) + {sections[n].name} by {
        assert forall i :: 0 <= i < n ==> sections[..n][i] == sections[i];
      }
      SectionMap(sections[..n])[sections[n].name := sections[n]]
  }

  /** When several sections share a name, the later one in the list wins. */
  lemma {:induction false} SectionMapLastWins(sections: seq<SectionTemplate>, name: string)
    requires name in SectionMap(sections)
    ensures exists j :: IsLastNamed(sections, name, j) && SectionMap(sections)[name] == sections[j]
  {
    var n := |sections| - 1;
    if sections[n].name == name {
      assert IsLastNamed(sections, name, n);
    } else {
      SectionMapLastWins(sections[..n], name);
      var j :| IsLastNamed(sections[..n], name, j) && SectionMap(sections[..n])[name] == sections[..n][j];
      assert sections[..n][j] == sections[j];
      forall j' | j < j' < |sections| ensures sections[j'].name != name {
        if j' < n {
          assert sections[..n][j'] == sections[j'];
        }
      }
      assert IsLastNamed(sections, name, j);
    }
  }

  /** The names of the discovered classes, as a set. */
  function ClassNames(classes: seq<SectionClass>): set<string> {
    set i | 0 <= i < |classes| :: classes[i].name
  }

  /** What instantiation gives a template: the section map built from the
      instantiated classes has exactly the classes' names as keys, and each
      name maps to a validator of that name, carrying the template's version
      and the check of the last discovered class with that name. */
  lemma InstantiatedSectionMap(classes: seq<SectionClass>, version: int, name: string)
    ensures SectionMap(Instantiate(classes, version)).Keys == ClassNames(classes)
    ensures var m := SectionMap(Instantiate(classes, version));
      name in m ==>
        m[name].name == name && m[name].version == version &&
        exists j :: 0 <= j < |classes| && classes[j].name == name && m[name].check == classes[j].check &&
          forall j' :: j < j' < |classes| ==> classes[j'].name != name
  {
    var sections := Instantiate(classes, version);
    assert Names(sections) == ClassNames(classes) by {
      forall n ensures n in Names(sections) <==> n in ClassNames(classes) {
        if n in Names(sections) {
          var i :| 0 <= i < |sections| && sections[i].name == n;
          assert classes[i].name == n;
        }
        if n in ClassNames(classes) {
          var i :| 0 <= i < |classes| && classes[i].name == n;
          assert sections[i].name == n;
        }
      }
    }
    if name in SectionMap(sections) {
      SectionMapLastWins(sections, name);
      var j :| IsLastNamed(sections, name, j) && SectionMap(sections)[name] == sections[j];
      assert classes[j].name == name;
      assert forall j' :: j < j' < |classes| ==> classes[j'].name != name by {
        forall j' | j < j' < |classes| ensures classes[j'].name != name {
          assert sections[j'].name == classes[j'].name;
        }
      }
    }
  }
}
