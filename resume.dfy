/** The resume editor's data and its repeatable-section operations: update a
    field of one item, append a blank item, remove an item (never the last). */
module Resume {

  /** One item of a repeatable section: field name to text. */
  type Item = map<string, string>

  datatype PersonalInfo = PersonalInfo(name: string, email: string, phone: string, location: string)

  datatype Links = Links(github: string, linkedin: string)

  datatype ResumeData = ResumeData(
    personalInfo: PersonalInfo,
    summary: string,
    education: seq<Item>,
    experience: seq<Item>,
    projects: seq<Item>,
    skills: string,
    links: Links)

  /** The repeatable sections. */
  datatype Section = Education | Experience | Projects

  const EducationTemplate: Item := map["school" := "", "degree" := "", "year" := ""]
  const ExperienceTemplate: Item := map["company" := "", "position" := "", "duration" := "", "description" := ""]
  const ProjectTemplate: Item := map["name" := "", "link" := "", "description" := ""]

  /** The editor's starting data: blank scalars and one blank item per section. */
  const InitialState: ResumeData := ResumeData(
    PersonalInfo("", "", "", ""),
    "",
    [EducationTemplate],
    [ExperienceTemplate],
    [ProjectTemplate],
    "",
    Links("", ""))

  /** The items of section `sec`. */
  function Items(d: ResumeData, sec: Section): seq<Item>
  {
    match sec
    case Education => d.education
    case Experience => d.experience
    case Projects => d.projects
  }

  /** Everything outside the repeatable sections. */
  function Scalars(d: ResumeData): (PersonalInfo, string, string, Links)
  {
    (d.personalInfo, d.summary, d.skills, d.links)
  }

  /** `d` with section `sec` replaced by `items`. */
  function WithItems(d: ResumeData, sec: Section, items: seq<Item>): (r: ResumeData)
    ensures Items(r, sec) == items
    ensures forall o :: o != sec ==> Items(r, o) == Items(d, o)
    ensures Scalars(r) == Scalars(d)
  {
    match sec
    case Education => d.(education := items)
    case Experience => d.(experience := items)
    case Projects => d.(projects := items)
  }

  /** Every repeatable section holds at least one item. */
  predicate SectionsNonEmpty(d: ResumeData)
  {
    forall sec :: |Items(d, sec)| >= 1
  }

  lemma InitialStateNonEmpty()
    ensures SectionsNonEmpty(InitialState)
    ensures forall sec :: |Items(InitialState, sec)| == 1
  {
    forall sec ensures |Items(InitialState, sec)| == 1 {
      match sec
      case Education =>
      case Experience =>
      case Projects =>
    }
  }

  // ---------------------------------------------------------------------
  // List-level operations

  /** The items kept by filtering out position `index` (positions compared
      with strict equality; an index outside the list keeps everything). */
  function FilterOutIndex(items: seq<Item>, index: int): (r: seq<Item>)
    ensures 0 <= index < |items| ==> r == items[..index] + items[index + 1..]
    ensures !(0 <= index < |items|) ==> r == items
  {
    if items == [] then []
    else (if index == 0 then [] else [items[0]]) + FilterOutIndex(items[1..], index - 1)
  }

  /** Removal guarded by the length check: a single-item list is left alone. */
  function RemoveAt(items: seq<Item>, index: int): (r: seq<Item>)
    ensures |items| <= 1 ==> r == items
    ensures |items| > 1 && 0 <= index < |items| ==>
              |r| == |items| - 1 && r[..index] == items[..index] && r[index..] == items[index + 1..]
    ensures |items| > 1 && !(0 <= index < |items|) ==> r == items
    ensures |items| >= 1 ==> |r| >= 1
  {
    if |items| > 1 then FilterOutIndex(items, index) else items
  }

  /** Removing at an index keeps the other items in their order: the item at
      position j of the result is the one at j, or at j + 1 past the index. */
  lemma RemoveAtOrder(items: seq<Item>, index: nat, j: nat)
    requires 1 < |items| && index < |items| && j < |items| - 1
    ensures RemoveAt(items, index)[j] == if j < index then items[j] else items[j + 1]
  {
    var r := RemoveAt(items, index);
    if j < index {
      assert r[j] == r[..index][j];
    } else {
      assert r[j] == r[index..][j - index];
    }
  }

  /** Appending a copy of the template at the end. */
  function Append(items: seq<Item>, template: Item): (r: seq<Item>)
    ensures |r| == |items| + 1
    ensures r[..|items|] == items && r[|items|] == template
  {
    items + [template]
  }

  /** Removing what was just appended gives back the list, in order. */
  lemma AppendThenRemove(items: seq<Item>, template: Item)
    requires |items| >= 1
    ensures RemoveAt(Append(items, template), |items|) == items
  {
  }

  // ---------------------------------------------------------------------
  // Section-level operations of the editor

  /** "Add": a copy of `template` at the end of section `sec`. */
  function AddItem(d: ResumeData, sec: Section, template: Item): (r: ResumeData)
    ensures |Items(r, sec)| == |Items(d, sec)| + 1
    ensures Items(r, sec)[..|Items(d, sec)|] == Items(d, sec)
    ensures Items(r, sec)[|Items(d, sec)|] == template
    ensures forall o :: o != sec ==> Items(r, o) == Items(d, o)
    ensures Scalars(r) == Scalars(d)
  {
    WithItems(d, sec, Append(Items(d, sec), template))
  }

  /** "Remove": drop item `index` of section `sec` unless it is the only one. */
  function RemoveItem(d: ResumeData, sec: Section, index: int): (r: ResumeData)
    ensures Items(r, sec) == RemoveAt(Items(d, sec), index)
    ensures |Items(d, sec)| <= 1 ==> r == d
    ensures forall o :: o != sec ==> Items(r, o) == Items(d, o)
    ensures Scalars(r) == Scalars(d)
  {
    if |Items(d, sec)| > 1 then WithItems(d, sec, FilterOutIndex(Items(d, sec), index))
    else d
  }

  /** Field change: copy the section's list, set `field` of item `index` to
      `value`, and store the copy back. */
  method HandleListChange(d: ResumeData, sec: Section, index: nat, field: string, value: string)
    returns (r: ResumeData)
    requires index < |Items(d, sec)|
    ensures |Items(r, sec)| == |Items(d, sec)|
    ensures field in Items(r, sec)[index] && Items(r, sec)[index][field] == value
    ensures forall f :: f != field ==>
              (f in Items(r, sec)[index] <==> f in Items(d, sec)[index])
    ensures forall f :: f != field && f in Items(d, sec)[index] ==>
              Items(r, sec)[index][f] == Items(d, sec)[index][f]
    ensures forall j :: 0 <= j < |Items(d, sec)| && j != index ==> Items(r, sec)[j] == Items(d, sec)[j]
    ensures forall o :: o != sec ==> Items(r, o) == Items(d, o)
    ensures Scalars(r) == Scalars(d)
  {
    var items := Items(d, sec);
    var newList := new Item[|items|](j requires 0 <= j < |items| => items[j]);
    newList[index] := newList[index][field := value];
    r := WithItems(d, sec, newList[..]);
  }

  /** No editor operation can empty a section. */
  lemma EditsKeepSectionsNonEmpty(d: ResumeData, sec: Section, template: Item, index: int)
    requires SectionsNonEmpty(d)
    ensures SectionsNonEmpty(AddItem(d, sec, template))
    ensures SectionsNonEmpty(RemoveItem(d, sec, index))
  {
    forall o ensures |Items(AddItem(d, sec, template), o)| >= 1 {
      if o != sec { assert Items(AddItem(d, sec, template), o) == Items(d, o); }
    }
    forall o ensures |Items(RemoveItem(d, sec, index), o)| >= 1 {
      if o != sec { assert Items(RemoveItem(d, sec, index), o) == Items(d, o); }
      else { assert |Items(d, sec)| >= 1; }
    }
  }

  /** Adding an item to a section and then removing it restores the data. */
  lemma AddThenRemoveRestores(d: ResumeData, sec: Section, template: Item)
    requires SectionsNonEmpty(d)
    ensures RemoveItem(AddItem(d, sec, template), sec, |Items(d, sec)|) == d
  {
    var a := AddItem(d, sec, template);
    var r := RemoveItem(a, sec, |Items(d, sec)|);
    assert |Items(d, sec)| >= 1;
    assert Items(a, sec) == Append(Items(d, sec), template);
    AppendThenRemove(Items(d, sec), template);
    assert Items(r, sec) == Items(d, sec);
    assert Items(r, Education) == Items(d, Education);
    assert Items(r, Experience) == Items(d, Experience);
    assert Items(r, Projects) == Items(d, Projects);
  }
}
