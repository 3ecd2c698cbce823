/** `CategoryManager`: the lint categories a wiki has configured, split by
    severity, and the fixed table of category names and their database ids. */
module CategoryManager {
  import opened Wrappers
  import opened OrderedMaps
  import opened PhpValues
  import opened Sorting

  const Error: string := "error"
  const Warning: string := "warning"

  /** The category names that have a database id, with that id. */
  const CategoryIds: OMap<string, int> := [
    ("fostered", 1),
    ("obsolete-tag", 2),
    ("bogus-image-options", 3),
    ("missing-end-tag", 4),
    ("stripped-tag", 5),
    ("self-closed-tag", 6)
  ]

  /** `$wgLinterCategories`: each category name with its settings array. */
  type Config = OMap<string, Value>

  /** `if ( $info['enabled'] )`: a missing setting reads as null. */
  predicate Enabled(info: Value) {
    Truthy(Lookup(info, "enabled"))
  }

  /** `$info['severity'] === $severity`: strict comparison with a string. */
  predicate HasSeverity(info: Value, severity: string) {
    Lookup(info, "severity") == Str(severity)
  }

  /** The configuration lists `name` as an enabled category of `severity`. */
  predicate Listed(config: Config, name: string, severity: string) {
    exists i :: 0 <= i < |config| && config[i].0 == name && Enabled(config[i].1) && HasSeverity(config[i].1, severity)
  }

  /** The keys whose values satisfy `p`, in order. */
  function KeysWhere<K(!new), V>(m: OMap<K, V>, p: V -> bool): (ks: seq<K>)
    ensures forall k :: k in ks <==> exists i :: 0 <= i < |m| && m[i].0 == k && p(m[i].1)
    decreases |m|
  {
    if |m| == 0 then []
    else
      var init := m[..|m| - 1];
      var last := m[|m| - 1];
      assert forall i :: 0 <= i < |init| ==> init[i] == m[i];
      KeysWhere(init, p) + (if p(last.1) then [last.0] else [])
  }

  /** The names of the enabled categories of one severity, in configuration
      order: the list the constructor's loop appends to. */
  function Collect(config: Config, severity: string): (names: seq<string>)
    ensures forall name :: name in names <==> Listed(config, name, severity)
  {
    KeysWhere(config, info => Enabled(info) && HasSeverity(info, severity))
  }

  /** The manager's two sorted lists. */
  datatype Manager = Manager(errors: seq<string>, warnings: seq<string>)

  /** The constructor: the enabled categories split by severity, each list
      sorted. A category of any other severity is in neither list. */
  function NewManager(config: Config): (m: Manager)
    ensures Sorted(m.errors) && Sorted(m.warnings)
    ensures forall name :: name in m.errors <==> Listed(config, name, Error)
    ensures forall name :: name in m.warnings <==> Listed(config, name, Warning)
    ensures multiset(m.errors) == multiset(Collect(config, Error))
    ensures multiset(m.warnings) == multiset(Collect(config, Warning))
  {
    var errors := Collect(config, Error);
    var warnings := Collect(config, Warning);
    var m := Manager(Sort(errors), Sort(warnings));
    assert forall name :: name in m.errors <==> name in multiset(errors);
    assert forall name :: name in m.warnings <==> name in multiset(warnings);
    m
  }

  /** A configured name has one severity, so no category is both an error
      and a warning. */
  lemma ErrorsAndWarningsDisjoint(config: Config)
    requires WellFormed(config)
    ensures forall name :: name in NewManager(config).errors ==> name !in NewManager(config).warnings
  {
    var m := NewManager(config);
    forall name | name in m.errors ensures name !in m.warnings {
      var i :| 0 <= i < |config| && config[i].0 == name && Enabled(config[i].1) && HasSeverity(config[i].1, Error);
      forall j | 0 <= j < |config| ensures config[j].0 == name ==> !HasSeverity(config[j].1, Warning) {
        if j < i {
          assert Keys(config)[j] != Keys(config)[i];
        } else if j > i {
          assert Keys(config)[i] != Keys(config)[j];
        }
      }
    }
  }

  /** `getVisibleCategories`: the errors followed by the warnings
      (`array_merge` of two lists concatenates them). */
  function VisibleCategories(m: Manager): (r: seq<string>)
    ensures |r| == |m.errors| + |m.warnings|
    ensures r[..|m.errors|] == m.errors && r[|m.errors|..] == m.warnings
  {
    m.errors + m.warnings
  }

  /** The visible categories are exactly the enabled ones of either
      severity. */
  lemma VisibleIffEnabled(config: Config, name: string)
    ensures name in VisibleCategories(NewManager(config))
        <==> Listed(config, name, Error) || Listed(config, name, Warning)
  {
    var m := NewManager(config);
    assert forall x :: x in m.errors + m.warnings <==> x in m.errors || x in m.warnings;
  }

  /** `isKnownCategory`: the name has a database id. */
  predicate IsKnownCategory(name: string) {
    Get(CategoryIds, name).Some?
  }

  /** The `RuntimeException`s the id lookups throw. */
  datatype CategoryError = NoIdForName(name: string) | NoNameForId(id: int)

  /** `getCategoryId`. */
  function GetCategoryId(name: string): (r: Result<int, CategoryError>)
    ensures r.Ok? <==> IsKnownCategory(name)
    ensures r.Ok? ==> (name, r.value) in CategoryIds
    ensures r.Err? ==> r.error == NoIdForName(name)
  {
    match Get(CategoryIds, name)
    case Some(n) => Ok(n)
    case None => Err(NoIdForName(name))
  }

  /** `getCategoryName`: a lookup in the flipped table. */
  function GetCategoryName(id: int): (r: Result<string, CategoryError>)
    ensures r.Ok? <==> id in Values(CategoryIds)
    ensures r.Err? ==> r.error == NoNameForId(id)
  {
    match Get(Flip(CategoryIds), id)
    case Some(name) => Ok(name)
    case None => Err(NoNameForId(id))
  }

  lemma CategoryIdsDistinct()
    ensures WellFormed(CategoryIds) && Distinct(Values(CategoryIds))
  {
    var ks := Keys(CategoryIds);
    assert ks[0][0] == 'f' && ks[1][0] == 'o' && ks[2][0] == 'b' && ks[3][0] == 'm' && ks[4][0] == 's' && ks[5][0] == 's';
    assert ks[4][1] == 't' && ks[5][1] == 'e';
    CategoryIdValues();
  }

  /** Names and ids correspond one to one: the name found for an id is the
      name whose id it is, in both directions. */
  lemma CategoryNameIdRoundTrip(name: string, id: int)
    ensures GetCategoryId(name) == Ok(id) <==> GetCategoryName(id) == Ok(name)
  {
    CategoryIdsDistinct();
    if GetCategoryId(name) == Ok(id) {
      FlipTo(CategoryIds, name, id);
    }
    if GetCategoryName(id) == Ok(name) {
      FlipFrom(CategoryIds, id);
      GetPair(CategoryIds, name, id);
    }
  }

  /** The ids are numbered 1 to 6 in table order. */
  lemma CategoryIdValues()
    ensures |Values(CategoryIds)| == 6
    ensures forall i :: 0 <= i < 6 ==> Values(CategoryIds)[i] == i + 1
  {
    var vs := Values(CategoryIds);
    assert vs[0] == 1 && vs[1] == 2 && vs[2] == 3 && vs[3] == 4 && vs[4] == 5 && vs[5] == 6;
  }

  /** The ids with a name are exactly 1 to 6. */
  lemma CategoryIdRange(id: int)
    ensures GetCategoryName(id).Ok? <==> 1 <= id <= 6
  {
    var vs := Values(CategoryIds);
    CategoryIdValues();
    if 1 <= id <= 6 {
      assert vs[id - 1] == id;
    }
    if id in vs {
      var i :| 0 <= i < |vs| && vs[i] == id;
    }
  }

  /** Each name with its id in `table`, keyed by name in order of first
      occurrence; the first name without an id is the error. */
  function IdsIn(table: OMap<string, int>, names: seq<string>): (r: Result<OMap<string, int>, CategoryError>)
    ensures r.Ok? <==> forall name :: name in names ==> Get(table, name).Some?
    ensures r.Ok? ==> Keys(r.value) == Dedup(names)
    ensures r.Ok? ==> forall name :: name in names ==> Get(r.value, name) == Get(table, name)
    ensures r.Err? ==> (exists i :: 0 <= i < |names| && r.error == NoIdForName(names[i])
                          && Get(table, names[i]).None? && forall j :: 0 <= j < i ==> Get(table, names[j]).Some?)
    decreases |names|
  {
    if |names| == 0 then Ok([])
    else
      var init := names[..|names| - 1];
      var name := names[|names| - 1];
      assert names == init + [name];
      match IdsIn(table, init)
      case Err(e) =>
        assert forall j :: 0 <= j < |init| ==> init[j] == names[j];
        assert forall x :: x in init ==> x in names;
        Err(e)
      case Ok(m) =>
        match Get(table, name)
        case None =>
          assert name in names;
          Err(NoIdForName(name))
        case Some(n) =>
          IdsInPut(table, init, name, m);
          Ok(Put(m, name, n))
  }

  /** The step of `IdsIn` for a name with an id: the map of the names before
      it, with its id put in, is the map of all of them. */
  lemma IdsInPut(table: OMap<string, int>, init: seq<string>, name: string, m: OMap<string, int>)
    requires Get(table, name).Some?
    requires Keys(m) == Dedup(init)
    requires forall x :: x in init ==> Get(m, x) == Get(table, x)
    ensures var r := Put(m, name, Get(table, name).value);
      && Keys(r) == Dedup(init + [name])
      && forall x :: x in init + [name] ==> Get(r, x) == Get(table, x)
  {
    var names := init + [name];
    assert names[..|names| - 1] == init;
    forall x | x in names ensures Get(Put(m, name, Get(table, name).value), x) == Get(table, x) {
      assert x in init || x == name;
    }
  }

  /** `getCategoryIds`: each name with its id, keyed by name in order of
      first occurrence; the first unknown name throws. */
  function GetCategoryIds(names: seq<string>): (r: Result<OMap<string, int>, CategoryError>)
    ensures r.Ok? <==> forall name :: name in names ==> IsKnownCategory(name)
    ensures r.Ok? ==> Keys(r.value) == Dedup(names)
    ensures r.Ok? ==> forall name :: name in names ==> Get(r.value, name) == Some(GetCategoryId(name).value)
    ensures r.Err? ==> (exists i :: 0 <= i < |names| && r.error == NoIdForName(names[i])
                          && !IsKnownCategory(names[i]) && forall j :: 0 <= j < i ==> IsKnownCategory(names[j]))
  {
    IdsIn(CategoryIds, names)
  }
}
