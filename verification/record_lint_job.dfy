/** `RecordLintJob`: the deferred job that turns the errors Parsoid reported
    for one revision into the page's stored lint errors, and reports the
    per-category totals to statsd. */
module RecordLintJob {
  import opened Wrappers
  import opened OrderedMaps
  import opened PhpValues
  import opened LintErrors
  import opened Database

  // ---------------------------------------------------------------------
  // Grouping by category and identity

  /** `[ category => [ id => LintError ] ]`. */
  type Groups<K> = OMap<string, OMap<K, LintError>>

  /** `$errors[$error->category][$error->id()] = $error`. */
  function AddError<K(==,!new)>(id: LintError -> K, groups: Groups<K>, e: LintError): (r: Groups<K>)
    ensures Keys(r) == AddKey(Keys(groups), e.category)
    ensures GetOrEmpty(r, e.category) == Put(GetOrEmpty(groups, e.category), id(e), e)
    ensures forall c :: c != e.category ==> GetOrEmpty(r, c) == GetOrEmpty(groups, c)
  {
    Put(groups, e.category, Put(GetOrEmpty(groups, e.category), id(e), e))
  }

  /** The grouping loop over the submitted errors, in order. */
  function Group<K(==,!new)>(id: LintError -> K, es: seq<LintError>): Groups<K>
    decreases |es|
  {
    if |es| == 0 then [] else AddError(id, Group(id, es[..|es| - 1]), es[|es| - 1])
  }

  function Categories(es: seq<LintError>): (cs: seq<string>)
    ensures |cs| == |es| && forall i :: 0 <= i < |es| ==> cs[i] == es[i].category
  {
    seq(|es|, i requires 0 <= i < |es| => es[i].category)
  }

  /** The identities of the errors of category `c`, in order. */
  function IdsWith<K(!new)>(id: LintError -> K, es: seq<LintError>, c: string): (ks: seq<K>)
    ensures forall k :: k in ks <==> exists e :: e in es && e.category == c && id(e) == k
    decreases |es|
  {
    if |es| == 0 then []
    else
      var init, last := es[..|es| - 1], es[|es| - 1];
      assert es == init + [last];
      assert forall e :: e in es <==> e in init || e == last;
      IdsWith(id, init, c) + (if last.category == c then [id(last)] else [])
  }

  /** The last error of category `c` with identity `k`, if any. */
  function LastWith<K(==)>(id: LintError -> K, es: seq<LintError>, c: string, k: K): (r: Option<LintError>)
    ensures r.Some? ==> r.value in es && r.value.category == c && id(r.value) == k
    decreases |es|
  {
    if |es| == 0 then None
    else
      var last := es[|es| - 1];
      if last.category == c && id(last) == k then Some(last)
      else
        assert forall e :: e in es[..|es| - 1] ==> e in es;
        LastWith(id, es[..|es| - 1], c, k)
  }

  /** The categories are keyed in order of first occurrence. */
  lemma {:induction false} GroupKeys<K(!new)>(id: LintError -> K, es: seq<LintError>)
    ensures Keys(Group(id, es)) == Dedup(Categories(es))
    decreases |es|
  {
    if |es| > 0 {
      var init := es[..|es| - 1];
      GroupKeys(id, init);
      assert Categories(es)[..|es| - 1] == Categories(init);
    }
  }

  /** Within a category, the identities are keyed in order of first
      occurrence. */
  lemma {:induction false} GroupInnerKeys<K(!new)>(id: LintError -> K, es: seq<LintError>, c: string)
    ensures Keys(GetOrEmpty(Group(id, es), c)) == Dedup(IdsWith(id, es, c))
    decreases |es|
  {
    if |es| > 0 {
      var init, last := es[..|es| - 1], es[|es| - 1];
      GroupInnerKeys(id, init, c);
      var before := IdsWith(id, init, c);
      if last.category == c {
        var after := before + [id(last)];
        assert IdsWith(id, es, c) == after;
        assert after[..|after| - 1] == before;
        assert Dedup(after) == AddKey(Dedup(before), id(last));
      } else {
        assert IdsWith(id, es, c) == before;
      }
    }
  }

  /** Each identity of a category holds the last error submitted with it. */
  lemma {:induction false} GroupInnerValues<K(!new)>(id: LintError -> K, es: seq<LintError>, c: string, k: K)
    ensures Get(GetOrEmpty(Group(id, es), c), k) == LastWith(id, es, c, k)
    decreases |es|
  {
    if |es| > 0 {
      var init := es[..|es| - 1];
      GroupInnerValues(id, init, c, k);
    }
  }

  /** Every identity is keyed once, and each error of the group has
      category `c`, sits under its own identity and comes from `es`. */
  ghost predicate InnerSound<K(!new)>(id: LintError -> K, inner: OMap<K, LintError>, c: string, es: seq<LintError>) {
    && WellFormed(inner)
    && forall k, e :: (k, e) in inner ==> id(e) == k && e.category == c && e in es
  }

  /** Every category is keyed once and every group is sound. */
  ghost predicate Sound<K(!new)>(id: LintError -> K, groups: Groups<K>, es: seq<LintError>) {
    && WellFormed(groups)
    && forall c, inner :: (c, inner) in groups ==> InnerSound(id, inner, c, es)
  }

  lemma SoundGroup<K(!new)>(id: LintError -> K, groups: Groups<K>, es: seq<LintError>, c: string)
    requires Sound(id, groups, es)
    ensures InnerSound(id, GetOrEmpty(groups, c), c, es)
  {
    match Get(groups, c)
    case Some(g) => assert (c, g) in groups;
    case None =>
  }

  lemma PutInnerSound<K(!new)>(id: LintError -> K, inner: OMap<K, LintError>, es: seq<LintError>, e: LintError)
    requires InnerSound(id, inner, e.category, es) && e in es
    ensures InnerSound(id, Put(inner, id(e), e), e.category, es)
  {
    PutEntries(inner, id(e), e);
  }

  lemma PutGroupSound<K(!new)>(id: LintError -> K, groups: Groups<K>, es: seq<LintError>, c: string, inner: OMap<K, LintError>)
    requires Sound(id, groups, es) && InnerSound(id, inner, c, es)
    ensures Sound(id, Put(groups, c, inner), es)
  {
    PutEntries(groups, c, inner);
  }

  lemma SoundMore<K(!new)>(id: LintError -> K, groups: Groups<K>, es: seq<LintError>, more: seq<LintError>)
    requires Sound(id, groups, es)
    requires forall e :: e in es ==> e in more
    ensures Sound(id, groups, more)
  {
  }

  lemma {:induction false} GroupSound<K(!new)>(id: LintError -> K, es: seq<LintError>)
    ensures Sound(id, Group(id, es), es)
    decreases |es|
  {
    if |es| > 0 {
      var init, last := es[..|es| - 1], es[|es| - 1];
      var groups := Group(id, init);
      GroupSound(id, init);
      SoundMore(id, groups, init, es);
      SoundGroup(id, groups, es, last.category);
      PutInnerSound(id, GetOrEmpty(groups, last.category), es, last);
      PutGroupSound(id, groups, es, last.category, Put(GetOrEmpty(groups, last.category), id(last), last));
    }
  }

  // ---------------------------------------------------------------------
  // Trimming each category and merging the groups

  /** `$toSet`: each group, cut to its first `max` entries when it has more,
      merged in turn into one array keyed by identity. */
  function MergeGroups<K(==,!new)>(acc: OMap<K, LintError>, groups: Groups<K>, max: nat): (r: OMap<K, LintError>)
    ensures WellFormed(acc) ==> WellFormed(r)
    decreases |groups|
  {
    if |groups| == 0 then acc
    else MergeGroups(Merge(acc, Take(groups[0].1, max)), groups[1..], max)
  }

  /** The trimmed groups one after the other. */
  function Flatten<K>(groups: Groups<K>, max: nat): OMap<K, LintError>
    decreases |groups|
  {
    if |groups| == 0 then [] else Take(groups[0].1, max) + Flatten(groups[1..], max)
  }

  /** No error in `acc` has the category of a group still to merge, and
      each sits under its own identity. */
  ghost predicate Settled<K(!new)>(id: LintError -> K, acc: OMap<K, LintError>, groups: Groups<K>) {
    forall k, e :: (k, e) in acc ==> id(e) == k && forall j :: 0 <= j < |groups| ==> e.category != groups[j].0
  }

  lemma SettledDisjoint<K(!new)>(id: LintError -> K, acc: OMap<K, LintError>, groups: Groups<K>, es: seq<LintError>, max: nat)
    requires IdDeterminesCategory(id)
    requires |groups| > 0 && Sound(id, groups, es) && Settled(id, acc, groups)
    ensures KeysDisjoint(acc, Take(groups[0].1, max))
  {
    var t := Take(groups[0].1, max);
    assert InnerSound(id, groups[0].1, groups[0].0, es) by { assert groups[0] in groups; }
    forall i, j | 0 <= i < |acc| && 0 <= j < |t| ensures acc[i].0 != t[j].0 {
      assert acc[i] in acc;
      assert t[j] in groups[0].1;
      assert acc[i].1.category != t[j].1.category;
    }
  }

  lemma SettledNext<K(!new)>(id: LintError -> K, acc: OMap<K, LintError>, groups: Groups<K>, es: seq<LintError>, max: nat)
    requires |groups| > 0 && Sound(id, groups, es) && Settled(id, acc, groups)
    ensures Settled(id, acc + Take(groups[0].1, max), groups[1..])
  {
    var t := Take(groups[0].1, max);
    assert InnerSound(id, groups[0].1, groups[0].0, es) by { assert groups[0] in groups; }
    forall k, e | (k, e) in acc + t
      ensures id(e) == k && forall j :: 0 <= j < |groups[1..]| ==> e.category != groups[1..][j].0
    {
      if (k, e) !in acc {
        assert (k, e) in t;
        forall j | 0 <= j < |groups[1..]| ensures e.category != groups[1..][j].0 {
          assert Keys(groups)[0] != Keys(groups)[j + 1];
        }
      }
    }
  }

  lemma SoundTail<K(!new)>(id: LintError -> K, groups: Groups<K>, es: seq<LintError>)
    requires |groups| > 0 && Sound(id, groups, es)
    ensures Sound(id, groups[1..], es)
    ensures InnerSound(id, groups[0].1, groups[0].0, es)
  {
    assert groups[0] in groups;
    assert Keys(groups[1..]) == Keys(groups)[1..];
  }

  /** One step of the merge loop: the first trimmed group is appended. */
  lemma MergeGroupsStep<K(!new)>(id: LintError -> K, acc: OMap<K, LintError>, groups: Groups<K>, es: seq<LintError>, max: nat)
    requires IdDeterminesCategory(id)
    requires |groups| > 0 && Sound(id, groups, es) && Settled(id, acc, groups)
    ensures MergeGroups(acc, groups, max) == MergeGroups(acc + Take(groups[0].1, max), groups[1..], max)
    ensures Sound(id, groups[1..], es) && Settled(id, acc + Take(groups[0].1, max), groups[1..])
  {
    SoundTail(id, groups, es);
    TakeWellFormed(groups[0].1, max);
    SettledDisjoint(id, acc, groups, es, max);
    MergeDisjoint(acc, Take(groups[0].1, max));
    SettledNext(id, acc, groups, es, max);
  }

  /** When identities determine categories, no two groups share a key, so
      `array_merge` of the trimmed groups is their concatenation. */
  lemma {:induction false} MergeGroupsConcat<K(!new)>(id: LintError -> K, acc: OMap<K, LintError>, groups: Groups<K>, es: seq<LintError>, max: nat)
    requires IdDeterminesCategory(id)
    requires Sound(id, groups, es) && Settled(id, acc, groups)
    ensures MergeGroups(acc, groups, max) == acc + Flatten(groups, max)
    decreases |groups|
  {
    if |groups| == 0 {
      assert acc + [] == acc;
    } else {
      var t := Take(groups[0].1, max);
      var rest := Flatten(groups[1..], max);
      assert MergeGroups(acc, groups, max) == (acc + t) + rest by {
        MergeGroupsStep(id, acc, groups, es, max);
        MergeGroupsConcat(id, acc + t, groups[1..], es, max);
      }
      ConcatAssoc(acc, t, rest);
    }
  }

  /** `$toSet` for the submitted errors `es`. */
  function ToSet<K(==,!new)>(id: LintError -> K, es: seq<LintError>, max: nat): (r: OMap<K, LintError>)
    ensures WellFormed(r)
  {
    MergeGroups([], Group(id, es), max)
  }

  /** Every entry of the merged groups is an entry of `acc` or of a trimmed
      group. */
  lemma {:induction false} MergeGroupsEntries<K(!new)>(id: LintError -> K, acc: OMap<K, LintError>, groups: Groups<K>, es: seq<LintError>, max: nat)
    requires Sound(id, groups, es)
    requires forall k, e :: (k, e) in acc ==> id(e) == k && e in es
    ensures forall k, e :: (k, e) in MergeGroups(acc, groups, max) ==> id(e) == k && e in es
    decreases |groups|
  {
    if |groups| > 0 {
      var t := Take(groups[0].1, max);
      SoundTail(id, groups, es);
      MergeEntries(acc, t);
      MergeGroupsEntries(id, Merge(acc, t), groups[1..], es, max);
    }
  }

  /** The keys of the merged groups: those of `acc` and of every trimmed
      group. */
  lemma {:induction false} MergeGroupsKeys<K(!new)>(acc: OMap<K, LintError>, groups: Groups<K>, max: nat, k: K)
    ensures k in Keys(MergeGroups(acc, groups, max))
        <==> k in Keys(acc) || exists j :: 0 <= j < |groups| && k in Keys(Take(groups[j].1, max))
    decreases |groups|
  {
    if |groups| > 0 {
      var t := Take(groups[0].1, max);
      MergeGroupsKeys(Merge(acc, t), groups[1..], max, k);
      assert k in Keys(Merge(acc, t)) <==> k in Keys(acc) || k in Keys(t);
      if exists j :: 0 <= j < |groups[1..]| && k in Keys(Take(groups[1..][j].1, max)) {
        var j :| 0 <= j < |groups[1..]| && k in Keys(Take(groups[1..][j].1, max));
        assert groups[1..][j] == groups[j + 1];
      }
      if j :| 0 <= j < |groups| && k in Keys(Take(groups[j].1, max)) {
        if j > 0 {
          assert groups[1..][j - 1] == groups[j];
        }
      }
    }
  }

  /** Each error to save sits under its own identity and was submitted. */
  lemma ToSetEntries<K(!new)>(id: LintError -> K, es: seq<LintError>, max: nat)
    ensures forall k, e :: (k, e) in ToSet(id, es, max) ==> id(e) == k && e in es
  {
    GroupSound(id, es);
    MergeGroupsEntries(id, [], Group(id, es), es, max);
  }

  /** The errors to save have distinct identities, all submitted, none
      stored yet when the submitted ones are not. */
  lemma ToSetValues<K(!new)>(id: LintError -> K, es: seq<LintError>, max: nat)
    ensures DistinctIds(id, Values(ToSet(id, es, max)))
    ensures forall e :: e in Values(ToSet(id, es, max)) ==> e in es
    ensures Fresh(es) ==> Fresh(Values(ToSet(id, es, max)))
  {
    ToSetEntries(id, es, max);
    KeyedValues(id, ToSet(id, es, max), es);
  }

  /** The values of a well-formed array keyed by identity, each from `es`,
      have distinct identities and come from `es`. */
  lemma KeyedValues<K(!new)>(id: LintError -> K, m: OMap<K, LintError>, es: seq<LintError>)
    requires WellFormed(m)
    requires forall k, e :: (k, e) in m ==> id(e) == k && e in es
    ensures DistinctIds(id, Values(m))
    ensures forall e :: e in Values(m) ==> e in es
    ensures Fresh(es) ==> Fresh(Values(m))
  {
    var vs := Values(m);
    forall i, j | 0 <= i < j < |vs| ensures id(vs[i]) != id(vs[j]) {
      assert m[i] in m && m[j] in m;
      assert Keys(m)[i] != Keys(m)[j];
    }
    forall e | e in vs ensures e in es {
      var i :| 0 <= i < |vs| && vs[i] == e;
      assert m[i] in m;
    }
  }

  /** When identities determine categories, the errors to save are the
      trimmed groups one after the other. */
  lemma ToSetConcat<K(!new)>(id: LintError -> K, es: seq<LintError>, max: nat)
    requires IdDeterminesCategory(id)
    ensures ToSet(id, es, max) == Flatten(Group(id, es), max)
  {
    GroupSound(id, es);
    MergeGroupsConcat(id, [], Group(id, es), es, max);
    assert [] + Flatten(Group(id, es), max) == Flatten(Group(id, es), max);
  }

  /** The errors of category `c`, in order. */
  function OfCategory(es: seq<LintError>, c: string): (r: seq<LintError>)
    ensures forall e :: e in r <==> e in es && e.category == c
    decreases |es|
  {
    if |es| == 0 then []
    else
      assert forall e :: e in es <==> e == es[0] || e in es[1..];
      (if es[0].category == c then [es[0]] else []) + OfCategory(es[1..], c)
  }

  lemma {:induction false} OfCategoryAppend(a: seq<LintError>, b: seq<LintError>, c: string)
    ensures OfCategory(a + b, c) == OfCategory(a, c) + OfCategory(b, c)
    decreases |a|
  {
    if |a| == 0 {
      assert a + b == b;
    } else {
      assert (a + b)[1..] == a[1..] + b;
      OfCategoryAppend(a[1..], b, c);
    }
  }

  /** A list of errors all of category `d` keeps all or none of them. */
  lemma {:induction false} OfCategoryUniform(es: seq<LintError>, c: string, d: string)
    requires forall e :: e in es ==> e.category == d
    ensures OfCategory(es, c) == if c == d then es else []
    decreases |es|
  {
    if |es| > 0 {
      OfCategoryUniform(es[1..], c, d);
      assert es == [es[0]] + es[1..];
    }
  }

  /** The first trimmed group holds only errors of its category. */
  lemma TrimmedCategory<K(!new)>(id: LintError -> K, groups: Groups<K>, es: seq<LintError>, max: nat)
    requires |groups| > 0 && Sound(id, groups, es)
    ensures forall e :: e in Values(Take(groups[0].1, max)) ==> e.category == groups[0].0
  {
    var t := Take(groups[0].1, max);
    SoundTail(id, groups, es);
    forall e: LintError | e in Values(t) ensures e.category == groups[0].0 {
      var i :| 0 <= i < |t| && Values(t)[i] == e;
      assert t[i] in groups[0].1;
    }
  }

  /** The category of the first group has no other group. */
  lemma FirstCategoryOnce<K>(groups: Groups<K>)
    requires |groups| > 0 && WellFormed(groups)
    ensures GetOrEmpty(groups[1..], groups[0].0) == []
  {
    assert Keys(groups)[0] == groups[0].0;
    assert Keys(groups[1..]) == Keys(groups)[1..];
    DistinctTail(Keys(groups));
  }

  /** The errors of category `c` in the trimmed groups are the first `max`
      errors of the group of `c`. */
  lemma {:induction false} FlattenOfCategory<K(!new)>(id: LintError -> K, groups: Groups<K>, es: seq<LintError>, max: nat, c: string)
    requires Sound(id, groups, es)
    ensures OfCategory(Values(Flatten(groups, max)), c) == Values(Take(GetOrEmpty(groups, c), max))
    decreases |groups|
  {
    if |groups| > 0 {
      var t := Take(groups[0].1, max);
      var rest := Flatten(groups[1..], max);
      assert OfCategory(Values(rest), c) == Values(Take(GetOrEmpty(groups[1..], c), max)) by {
        SoundTail(id, groups, es);
        FlattenOfCategory(id, groups[1..], es, max, c);
      }
      assert OfCategory(Values(Flatten(groups, max)), c) == OfCategory(Values(t), c) + OfCategory(Values(rest), c) by {
        ValuesAppend(t, rest);
        OfCategoryAppend(Values(t), Values(rest), c);
      }
      assert OfCategory(Values(t), c) == if c == groups[0].0 then Values(t) else [] by {
        TrimmedCategory(id, groups, es, max);
        OfCategoryUniform(Values(t), c, groups[0].0);
      }
      if groups[0].0 == c {
        FirstCategoryOnce(groups);
        assert Values(t) + [] == Values(t);
      } else {
        assert [] + OfCategory(Values(rest), c) == OfCategory(Values(rest), c);
      }
    }
  }

  /** The trimming rule: when identities determine categories, the errors
      saved for category `c` are the first `max` identities submitted for
      `c`, each with the last error submitted under it. */
  lemma ToSetOfCategory<K(!new)>(id: LintError -> K, es: seq<LintError>, max: nat, c: string)
    requires IdDeterminesCategory(id)
    ensures var saved := OfCategory(Values(ToSet(id, es, max)), c);
      && saved == Values(Take(GetOrEmpty(Group(id, es), c), max))
      && |saved| <= max
      && Keys(Take(GetOrEmpty(Group(id, es), c), max)) == Take(Dedup(IdsWith(id, es, c)), max)
  {
    ToSetConcat(id, es, max);
    GroupSound(id, es);
    FlattenOfCategory(id, Group(id, es), es, max, c);
    GroupInnerKeys(id, es, c);
    KeysTake(GetOrEmpty(Group(id, es), c), max);
  }

  /** A category of `es` is a key of the grouping, and the identity of each
      of its errors is a key of its group. */
  lemma GroupHolds<K(!new)>(id: LintError -> K, es: seq<LintError>, e: LintError)
    requires e in es
    ensures exists j :: 0 <= j < |Group(id, es)| && Group(id, es)[j].0 == e.category
                     && Group(id, es)[j].1 == GetOrEmpty(Group(id, es), e.category)
    ensures id(e) in Keys(GetOrEmpty(Group(id, es), e.category))
  {
    var groups := Group(id, es);
    GroupKeys(id, es);
    assert WellFormed(groups);
    var n :| 0 <= n < |es| && es[n] == e;
    assert Categories(es)[n] == e.category;
    assert e.category in Keys(groups);
    var j :| 0 <= j < |groups| && Keys(groups)[j] == e.category;
    GetEntry(groups, j);
    assert groups[j].0 == e.category && groups[j].1 == GetOrEmpty(groups, e.category);
    GroupInnerKeys(id, es, e.category);
  }

  /** The identity of a submitted error whose group is not trimmed is saved. */
  lemma ToSetHasId<K(!new)>(id: LintError -> K, es: seq<LintError>, max: nat, e: LintError)
    requires e in es
    requires |Dedup(IdsWith(id, es, e.category))| <= max
    ensures id(e) in IdsOf(id, Values(ToSet(id, es, max)))
  {
    var groups := Group(id, es);
    var m := ToSet(id, es, max);
    GroupHolds(id, es, e);
    var j :| 0 <= j < |groups| && groups[j].0 == e.category && groups[j].1 == GetOrEmpty(groups, e.category);
    assert Take(groups[j].1, max) == groups[j].1 by {
      GroupInnerKeys(id, es, e.category);
      assert |groups[j].1| == |Keys(groups[j].1)|;
    }
    MergeGroupsKeys([], groups, max, id(e));
    var i :| 0 <= i < |m| && Keys(m)[i] == id(e);
    ToSetEntries(id, es, max);
    assert m[i] in m;
    assert Values(m)[i] in Values(m);
  }

  /** When no category has more than `max` distinct identities nothing is
      trimmed: the errors to save carry exactly the submitted identities. */
  lemma ToSetComplete<K(!new)>(id: LintError -> K, es: seq<LintError>, max: nat)
    requires forall c :: |Dedup(IdsWith(id, es, c))| <= max
    ensures IdsOf(id, Values(ToSet(id, es, max))) == IdsOf(id, es)
  {
    var m := ToSet(id, es, max);
    forall e | e in es ensures id(e) in IdsOf(id, Values(m)) {
      ToSetHasId(id, es, max, e);
    }
    ToSetValues(id, es, max);
  }

  // ---------------------------------------------------------------------
  // The job

  /** What the job reads from its title: the page's article id and latest
      revision id. */
  datatype PageTitle = PageTitle(articleId: int, latestRevId: int)

  /** The job's `errors` and `revision` parameters. */
  datatype JobParams = JobParams(errors: seq<ErrorInfo>, revision: int)

  /** The errors the grouping loop builds, one per submitted entry. */
  function Submitted(infos: seq<ErrorInfo>): (es: seq<LintError>)
    ensures |es| == |infos|
    ensures forall i :: 0 <= i < |infos| ==>
      (es[i].category == infos[i].typeName && es[i].location == infos[i].location && es[i].params == infos[i].params)
    ensures Fresh(es)
  {
    seq(|infos|, i requires 0 <= i < |infos| => FromInfo(infos[i]))
  }

  /** The list `setForPage` receives: the values of `$toSet` in order. */
  function SaveList<K(==,!new)>(id: LintError -> K, infos: seq<ErrorInfo>, max: nat): seq<LintError> {
    Values(ToSet(id, Submitted(infos), max))
  }

  /** `$wgLinterStatsdSampleFactor`: `false`, or the `n` of a one in `n`
      sample. */
  datatype SampleFactor = Disabled | Factor(n: int)

  /** One `gauge( $name, $value )` call. */
  datatype Gauge = Gauge(name: string, value: int)

  const CategoryPrefix: string := "linter.category."
  const TotalsName: string := "linter.totals"

  /** Whether this run samples: never when disabled; under PHP 7,
      `mt_rand( 1, n )` with `n < 1` returns `false`, which is not `1`;
      otherwise when the draw `draw` (the value of `mt_rand`) is 1. */
  predicate Sampled(factor: SampleFactor, draw: int) {
    factor.Factor? && factor.n >= 1 && draw == 1
  }

  /** The per-category gauges, in the order of the totals. */
  function CategoryGauges(totals: OMap<string, int>): (g: seq<Gauge>)
    ensures |g| == |totals|
    ensures forall i :: 0 <= i < |totals| ==> g[i] == Gauge(CategoryPrefix + totals[i].0, totals[i].1)
  {
    seq(|totals|, i requires 0 <= i < |totals| => Gauge(CategoryPrefix + totals[i].0, totals[i].1))
  }

  /** `array_sum`. */
  function Sum(xs: seq<int>): int
    decreases |xs|
  {
    if |xs| == 0 then 0 else xs[0] + Sum(xs[1..])
  }

  /** The values of a list of gauges. */
  function GaugeValues(g: seq<Gauge>): (vs: seq<int>)
    ensures |vs| == |g| && forall i :: 0 <= i < |g| ==> vs[i] == g[i].value
  {
    seq(|g|, i requires 0 <= i < |g| => g[i].value)
  }

  /** The per-category gauge values add up to the sum of the totals. */
  lemma {:induction false} CategoryGaugesSum(totals: OMap<string, int>)
    ensures Sum(GaugeValues(CategoryGauges(totals))) == Sum(Values(totals))
    decreases |totals|
  {
    if |totals| > 0 {
      CategoryGaugesSum(totals[1..]);
      assert GaugeValues(CategoryGauges(totals))[1..] == GaugeValues(CategoryGauges(totals[1..]));
      assert Values(totals)[1..] == Values(totals[1..]);
    }
  }

  /** `updateStats` once `getTotals` has returned `totals`: the gauges sent,
      none when the run is not sampled. */
  function UpdateStats(factor: SampleFactor, draw: int, totals: OMap<string, int>): (g: seq<Gauge>)
    ensures !Sampled(factor, draw) ==> g == []
    ensures Sampled(factor, draw) ==> |g| == |totals| + 1 && g[..|totals|] == CategoryGauges(totals)
    ensures Sampled(factor, draw) ==> g[|totals|].name == TotalsName
  {
    if Sampled(factor, draw) then CategoryGauges(totals) + [Gauge(TotalsName, Sum(Values(totals)))] else []
  }

  /** Whenever stats are sent, the totals gauge is the sum of the category
      gauges before it, and every other gauge is a category gauge. */
  lemma StatsTotalIsSum(factor: SampleFactor, draw: int, totals: OMap<string, int>)
    ensures var g := UpdateStats(factor, draw, totals);
      |g| > 0 ==>
        (&& g[|g| - 1] == Gauge(TotalsName, Sum(GaugeValues(g[..|g| - 1])))
         && forall i :: 0 <= i < |g| - 1 ==> g[i].name == CategoryPrefix + totals[i].0)
  {
    CategoryGaugesSum(totals);
  }

  /** With a sample factor of 1 every draw is 1, so stats are always sent;
      with `false` they never are. */
  lemma SampleFactorExtremes(draw: int, totals: OMap<string, int>)
    requires draw == 1
    ensures |UpdateStats(Factor(1), draw, totals)| == |totals| + 1
    ensures UpdateStats(Disabled, draw, totals) == []
  {
  }

  /** What a run of the job leaves behind: the table, the gauges sent and the
      value `run` returns. */
  datatype JobRun = JobRun(table: Table, gauges: seq<Gauge>, done: bool)

  /** `run`. The stale path writes and reports nothing; otherwise the saved
      errors go to `setForPage` for the title's page and `updateStats` reads
      the totals (`getTotals`, a parameter) of the updated table. `max` is
      `MAX_PER_CAT` and `draw` the value `mt_rand` returns. */
  function Run<K(==,!new)>(id: LintError -> K, title: PageTitle, params: JobParams, t: Table, max: nat,
                           totals: Table -> OMap<string, int>, factor: SampleFactor, draw: int): (r: JobRun)
    ensures r.done
    ensures title.latestRevId != params.revision ==> r.table == t && r.gauges == []
    ensures !Sampled(factor, draw) ==> r.gauges == []
    ensures |r.gauges| > 0 ==> r.gauges[|r.gauges| - 1] == Gauge(TotalsName, Sum(Values(totals(r.table))))
  {
    if title.latestRevId != params.revision then JobRun(t, [], true)
    else
      var errors := SaveList(id, params.errors, max);
      var t' := Apply(t, SetForPage(id, title.articleId, t.rows, errors).writes);
      JobRun(t', UpdateStats(factor, draw, totals(t')), true)
  }

  /** A current job leaves the page holding exactly the identities it saves,
      all of them submitted, and keeps the table consistent. */
  lemma RunConverges<K(!new)>(id: LintError -> K, title: PageTitle, params: JobParams, t: Table, max: nat,
                              totals: Table -> OMap<string, int>, factor: SampleFactor, draw: int)
    requires IdentityOf(id) && Valid(id, t)
    requires title.latestRevId == params.revision
    ensures var r := Run(id, title, params, t, max, totals, factor, draw);
      && Valid(id, r.table)
      && GetForPage(id, r.table.rows, title.articleId).Keys == IdsOf(id, SaveList(id, params.errors, max))
      && IdsOf(id, SaveList(id, params.errors, max)) <= IdsOf(id, Submitted(params.errors))
  {
    var es := Submitted(params.errors);
    var errors := SaveList(id, params.errors, max);
    ToSetValues(id, es, max);
    SetForPageConverges(id, t, title.articleId, errors);
    SetForPageValid(id, t, title.articleId, errors);
  }

  /** When no category is over the cap, a current job stores every submitted
      identity and nothing else. */
  lemma RunStoresAll<K(!new)>(id: LintError -> K, title: PageTitle, params: JobParams, t: Table, max: nat,
                              totals: Table -> OMap<string, int>, factor: SampleFactor, draw: int)
    requires IdentityOf(id) && Valid(id, t)
    requires title.latestRevId == params.revision
    requires forall c :: |Dedup(IdsWith(id, Submitted(params.errors), c))| <= max
    ensures var r := Run(id, title, params, t, max, totals, factor, draw);
      GetForPage(id, r.table.rows, title.articleId).Keys == IdsOf(id, Submitted(params.errors))
  {
    RunConverges(id, title, params, t, max, totals, factor, draw);
    ToSetComplete(id, Submitted(params.errors), max);
  }

  /** A run touches no other page's rows. */
  lemma RunOtherPages<K(!new)>(id: LintError -> K, title: PageTitle, params: JobParams, t: Table, max: nat,
                               totals: Table -> OMap<string, int>, factor: SampleFactor, draw: int, r: Row, q: int)
    requires Valid(id, t)
    requires q != title.articleId && OnPage(r, q)
    ensures r in Run(id, title, params, t, max, totals, factor, draw).table.rows <==> r in t.rows
  {
    if title.latestRevId == params.revision {
      var errors := SaveList(id, params.errors, max);
      ToSetValues(id, Submitted(params.errors), max);
      SetForPageOtherPages(id, t, title.articleId, errors, r, q);
    }
  }

  /** Running the same current job twice: the second run plans no write. */
  lemma RunIdempotent<K(!new)>(id: LintError -> K, title: PageTitle, params: JobParams, t: Table, max: nat,
                               totals: Table -> OMap<string, int>, factor: SampleFactor, draw: int)
    requires IdentityOf(id) && Valid(id, t)
    requires title.latestRevId == params.revision
    ensures var t' := Run(id, title, params, t, max, totals, factor, draw).table;
      SetForPage(id, title.articleId, t'.rows, SaveList(id, params.errors, max)) == Plan([], SetResult(Count(0), 0))
  {
    var errors := SaveList(id, params.errors, max);
    ToSetValues(id, Submitted(params.errors), max);
    SetForPageIdempotent(id, t, title.articleId, errors);
  }

  /** The single entry of the job's test: a `fostered` error at [0, 10]
      without parameters. */
  function FosteredInfo(): ErrorInfo {
    ErrorInfo("fostered", Arr([(IntKey(0), Int(0)), (IntKey(1), Int(10))]), Arr([]))
  }

  /** A job of one error saves that error. */
  lemma SaveOne<K(!new)>(id: LintError -> K, info: ErrorInfo, max: nat)
    requires max >= 1
    ensures SaveList(id, [info], max) == [FromInfo(info)]
  {
    var e := FromInfo(info);
    assert Submitted([info]) == [e];
    assert Group(id, [e]) == [(e.category, [(id(e), e)])] by {
      assert [e][..0] == [];
    }
    var g := Group(id, [e]);
    var one := [(id(e), e)];
    assert Take(one, max) == one;
    assert Merge([], one) == one by {
      assert Put([], id(e), e) == one;
      assert one[1..] == [];
    }
    assert g[1..] == [];
    assert ToSet(id, [e], max) == MergeGroups(one, [], max);
    assert Values(one) == [e];
  }

  /** Saving one fresh error on a page that holds nothing stores exactly
      its row. */
  lemma SaveOnEmptyPage<K(!new)>(id: LintError -> K, t: Table, pageId: int, e: LintError)
    requires e.lintId == 0
    requires forall r :: r in t.rows ==> !OnPage(r, pageId)
    ensures var t' := Apply(t, SetForPage(id, pageId, t.rows, [e]).writes);
      var row := FreshRow(t.nextId, pageId, e);
      PageErrors(t'.rows, pageId) == {MakeLintError(row)} && PageIds(id, t'.rows, pageId) == {id(MakeLintError(row))}
  {
    assert PageIds(id, t.rows, pageId) == {};
    ApplyOnEmptyPage(id, t, pageId, [e]);
    var row := FreshRow(t.nextId, pageId, e);
    assert FreshRows(t.nextId, pageId, [e]) == [row];
    OneRowOnPage(id, t.rows, row, pageId);
  }

  /** A page row appended to rows that hold nothing for its page is all the
      page then holds. */
  lemma OneRowOnPage<K(!new)>(id: LintError -> K, rows: seq<Row>, row: Row, pageId: int)
    requires forall r :: r in rows ==> !OnPage(r, pageId)
    requires OnPage(row, pageId)
    ensures PageErrors(rows + [row], pageId) == {MakeLintError(row)}
    ensures PageIds(id, rows + [row], pageId) == {id(MakeLintError(row))}
  {
    assert forall x :: x in rows + [row] <==> x in rows || x == row;
  }

  /** The job's test: a current job with that one error, on a page that
      holds nothing, returns true and leaves the page holding one error, of
      the submitted category, location and params. */
  lemma TestRun<K(!new)>(id: LintError -> K, t: Table, pageId: int, revision: int, max: nat,
                         totals: Table -> OMap<string, int>, factor: SampleFactor, draw: int)
    requires max >= 1
    requires forall r :: r in t.rows ==> !OnPage(r, pageId)
    ensures var r := Run(id, PageTitle(pageId, revision), JobParams([FosteredInfo()], revision), t, max, totals, factor, draw);
      var m := GetForPage(id, r.table.rows, pageId);
      && r.done
      && |m.Keys| == 1
      && forall k :: k in m ==>
           (m[k].category == FosteredInfo().typeName && m[k].location == FosteredInfo().location
            && m[k].params == FosteredInfo().params)
  {
    var e := FromInfo(FosteredInfo());
    SaveOne(id, FosteredInfo(), max);
    var r := Run(id, PageTitle(pageId, revision), JobParams([FosteredInfo()], revision), t, max, totals, factor, draw);
    assert r.table == Apply(t, SetForPage(id, pageId, t.rows, [e]).writes);
    SaveOnEmptyPage(id, t, pageId, e);
    var stored := MakeLintError(FreshRow(t.nextId, pageId, e));
    var m := GetForPage(id, r.table.rows, pageId);
    assert m.Keys == {id(stored)};
    forall k | k in m ensures m[k] == stored {
      assert m[k] in PageErrors(r.table.rows, pageId);
    }
  }
}
