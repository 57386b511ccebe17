/** `DstToHubBaseMappingRule.MapCategory` and `TryCreateCategory`: a
    categorizable Hub thing gets the category named by a given name, looked
    up by its short name in the chain of reference data libraries, or
    created there when it is missing. The Hub write that creates a category
    is a parameter: whether it succeeds. */
module Categories {
  import opened Wrappers
  import opened Hub
  import opened ShortNames

  /** The first category of `cs` with short name `shortName`. */
  function {:induction false} FindByShortName(cs: seq<CategoryThing>, shortName: string): (r: Option<CategoryThing>)
    ensures r.Some? ==> r.value in cs && r.value.shortName == shortName
    ensures r.None? <==> forall i :: 0 <= i < |cs| ==> cs[i].shortName != shortName
  {
    if cs == [] then None
    else if cs[0].shortName == shortName then Some(cs[0])
    else
      assert forall i :: 1 <= i < |cs| ==> cs[i] == cs[1..][i - 1];
      FindByShortName(cs[1..], shortName)
  }

  /** Whether `cs` holds a category with short name `shortName`. */
  predicate HasShortName(cs: seq<CategoryThing>, shortName: string) {
    exists i :: 0 <= i < |cs| && cs[i].shortName == shortName
  }

  /** The category `TryCreateCategory` builds before writing it: the given
      name and short name, a fresh identifier and the permissible classes. */
  function NewCategory(shortName: string, name: string, iid: string, permissibleClasses: seq<ClassKind>): (r: CategoryThing)
    ensures r.name == name && r.shortName == shortName && r.iid == iid
    ensures r.permissibleClasses == permissibleClasses
  {
    CategoryThing(iid, name, shortName, permissibleClasses)
  }

  /** `TryCreateCategory`: the new category when the Hub write succeeds,
      nothing otherwise. */
  function TryCreateCategory(shortName: string, name: string, permissibleClasses: seq<ClassKind>,
                             iid: string, writeSucceeds: bool): (r: Option<CategoryThing>)
    ensures r.Some? <==> writeSucceeds
    ensures r.Some? ==> r.value.name == name && r.value.shortName == shortName && r.value.permissibleClasses == permissibleClasses
  {
    if writeSucceeds then Some(NewCategory(shortName, name, iid, permissibleClasses)) else None
  }

  /** The category `MapCategory` settles on: the first one in the libraries
      with the name's short name, or else the one it creates, if the write
      succeeds. */
  function CategoryFor(categoryName: string, permissibleClasses: seq<ClassKind>, libraries: seq<CategoryThing>,
                       iid: string, writeSucceeds: bool): (r: Option<CategoryThing>)
    ensures r.Some? ==> r.value.shortName == GetShortName(categoryName)
    ensures HasShortName(libraries, GetShortName(categoryName)) ==> r.Some? && r.value in libraries
    ensures !HasShortName(libraries, GetShortName(categoryName)) ==>
      r == TryCreateCategory(GetShortName(categoryName), categoryName, permissibleClasses, iid, writeSucceeds)
  {
    var shortName := GetShortName(categoryName);
    match FindByShortName(libraries, shortName)
    case Some(c) => Some(c)
    case None => TryCreateCategory(shortName, categoryName, permissibleClasses, iid, writeSucceeds)
  }

  /** `MapCategory`: the thing's categories, to which the category of
      `categoryName` is appended unless one with its short name is already
      there. When the category can be neither found nor created the
      categories are unchanged. */
  function MapCategory(categories: seq<CategoryThing>, categoryName: string, permissibleClasses: seq<ClassKind>,
                       libraries: seq<CategoryThing>, iid: string, writeSucceeds: bool): (r: seq<CategoryThing>)
    ensures CategoryFor(categoryName, permissibleClasses, libraries, iid, writeSucceeds).None? ==> r == categories
    ensures HasShortName(categories, GetShortName(categoryName)) ==> r == categories
    ensures CategoryFor(categoryName, permissibleClasses, libraries, iid, writeSucceeds).Some? ==>
      && HasShortName(r, GetShortName(categoryName))
      && (r == categories || r == categories + [CategoryFor(categoryName, permissibleClasses, libraries, iid, writeSucceeds).value])
  {
    var shortName := GetShortName(categoryName);
    match CategoryFor(categoryName, permissibleClasses, libraries, iid, writeSucceeds)
    case None => categories
    case Some(c) =>
      if FindByShortName(categories, shortName).None? then
        assert (categories + [c])[|categories|] == c;
        categories + [c]
      else categories
  }

  /** Once a category has been found or created for the thing, mapping it a
      second time changes nothing, whatever the libraries then hold and
      whether a second write would succeed; when the first attempt found
      nothing, the second is the same as a first. */
  lemma MapCategoryIdempotent(categories: seq<CategoryThing>, categoryName: string, permissibleClasses: seq<ClassKind>,
                              libraries: seq<CategoryThing>, iid: string, writeSucceeds: bool,
                              libraries2: seq<CategoryThing>, iid2: string, writeSucceeds2: bool)
    ensures var once := MapCategory(categories, categoryName, permissibleClasses, libraries, iid, writeSucceeds);
      && (CategoryFor(categoryName, permissibleClasses, libraries, iid, writeSucceeds).Some? ==>
            MapCategory(once, categoryName, permissibleClasses, libraries2, iid2, writeSucceeds2) == once)
      && (CategoryFor(categoryName, permissibleClasses, libraries, iid, writeSucceeds).None? ==>
            MapCategory(once, categoryName, permissibleClasses, libraries2, iid2, writeSucceeds2)
            == MapCategory(categories, categoryName, permissibleClasses, libraries2, iid2, writeSucceeds2))
  {
    var once := MapCategory(categories, categoryName, permissibleClasses, libraries, iid, writeSucceeds);
    if CategoryFor(categoryName, permissibleClasses, libraries, iid, writeSucceeds).Some? {
      assert HasShortName(once, GetShortName(categoryName));
    }
  }

  /** The categories a mapped thing ends up with keep every category it had,
      in order, and hold one with the name's short name exactly when the
      category was found or created or was already there. */
  lemma MapCategoryKeepsCategories(categories: seq<CategoryThing>, categoryName: string, permissibleClasses: seq<ClassKind>,
                                   libraries: seq<CategoryThing>, iid: string, writeSucceeds: bool)
    ensures var r := MapCategory(categories, categoryName, permissibleClasses, libraries, iid, writeSucceeds);
      && r[..|categories|] == categories
      && (HasShortName(r, GetShortName(categoryName)) <==>
            (HasShortName(categories, GetShortName(categoryName))
             || HasShortName(libraries, GetShortName(categoryName)) || writeSucceeds))
  {
    var r := MapCategory(categories, categoryName, permissibleClasses, libraries, iid, writeSucceeds);
    var sn := GetShortName(categoryName);
    var c := CategoryFor(categoryName, permissibleClasses, libraries, iid, writeSucceeds);
    if r == categories {
      assert r[..|categories|] == categories;
    } else {
      assert r == categories + [c.value];
      assert r[..|categories|] == categories;
    }
  }

  lemma HasShortNameExtends(a: seq<CategoryThing>, b: seq<CategoryThing>, shortName: string)
    requires |b| >= |a| && b[..|a|] == a
    ensures HasShortName(a, shortName) ==> HasShortName(b, shortName)
  {
    if HasShortName(a, shortName) {
      var i :| 0 <= i < |a| && a[i].shortName == shortName;
      assert b[i] == a[i];
    }
  }

  /** The short names of `names`, in order. */
  function ShortNamesOf(names: seq<string>): (r: seq<string>)
    ensures |r| == |names| && forall i :: 0 <= i < |names| ==> r[i] == GetShortName(names[i])
  {
    seq(|names|, i requires 0 <= i < |names| => GetShortName(names[i]))
  }

  /** `MapCategory` for each name in turn, with the same permissible
      classes. A category is created under the iid `uuid` gives for its
      name, and the Hub write succeeds as `writeSucceeds` says. The
      categories the thing had stay in front, and every name whose category
      is in the libraries or can be created ends up among the categories. */
  function {:induction false} MapCategoryNames(categories: seq<CategoryThing>, names: seq<string>, permissibleClasses: seq<ClassKind>,
                                               libraries: seq<CategoryThing>, uuid: string -> string,
                                               writeSucceeds: string -> bool): (r: seq<CategoryThing>)
    ensures |r| >= |categories| && r[..|categories|] == categories
    ensures forall i :: 0 <= i < |names| && (HasShortName(libraries, GetShortName(names[i])) || writeSucceeds(names[i])) ==>
      HasShortName(r, GetShortName(names[i]))
    ensures forall j :: |categories| <= j < |r| ==> r[j].shortName in ShortNamesOf(names)
    decreases |names|
  {
    if names == [] then categories
    else
      var mid := MapCategory(categories, names[0], permissibleClasses, libraries, uuid(names[0]), writeSucceeds(names[0]));
      var r := MapCategoryNames(mid, names[1..], permissibleClasses, libraries, uuid, writeSucceeds);
      MapCategoryNamesStep(categories, names, permissibleClasses, libraries, uuid, writeSucceeds, r);
      r
  }

  /** The contract of `MapCategoryNames` for `names` from that of the rest
      of the names, mapped after the first. */
  lemma MapCategoryNamesStep(categories: seq<CategoryThing>, names: seq<string>, permissibleClasses: seq<ClassKind>,
                             libraries: seq<CategoryThing>, uuid: string -> string, writeSucceeds: string -> bool,
                             r: seq<CategoryThing>)
    requires names != []
    requires var mid := MapCategory(categories, names[0], permissibleClasses, libraries, uuid(names[0]), writeSucceeds(names[0]));
      && |r| >= |mid| && r[..|mid|] == mid
      && (forall i :: 0 <= i < |names[1..]| && (HasShortName(libraries, GetShortName(names[1..][i])) || writeSucceeds(names[1..][i])) ==>
            HasShortName(r, GetShortName(names[1..][i])))
      && (forall j :: |mid| <= j < |r| ==> r[j].shortName in ShortNamesOf(names[1..]))
    ensures |r| >= |categories| && r[..|categories|] == categories
    ensures forall i :: 0 <= i < |names| && (HasShortName(libraries, GetShortName(names[i])) || writeSucceeds(names[i])) ==>
      HasShortName(r, GetShortName(names[i]))
    ensures forall j :: |categories| <= j < |r| ==> r[j].shortName in ShortNamesOf(names)
  {
    var mid := MapCategory(categories, names[0], permissibleClasses, libraries, uuid(names[0]), writeSucceeds(names[0]));
    MapCategoryKeepsCategories(categories, names[0], permissibleClasses, libraries, uuid(names[0]), writeSucceeds(names[0]));
    assert r[..|categories|] == categories by {
      assert r[..|mid|][..|categories|] == r[..|categories|];
    }
    HasShortNameExtends(mid, r, GetShortName(names[0]));
    forall i | 1 <= i < |names| && (HasShortName(libraries, GetShortName(names[i])) || writeSucceeds(names[i]))
      ensures HasShortName(r, GetShortName(names[i]))
    {
      assert names[i] == names[1..][i - 1];
    }
    assert ShortNamesOf(names[1..]) == ShortNamesOf(names)[1..];
    forall j | |categories| <= j < |r|
      ensures r[j].shortName in ShortNamesOf(names)
    {
      if j < |mid| {
        assert r[j] == mid[j];
        assert mid[j].shortName == GetShortName(names[0]);
        assert ShortNamesOf(names)[0] == GetShortName(names[0]);
      }
    }
  }
}
