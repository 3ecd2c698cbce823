/** `ApiRecordLint`: the internal API module Parsoid posts a page's lint
    errors to. It checks the submitter, the data and the page, keeps the
    submitted entries it can record, and queues a `RecordLintJob` for them. */
module ApiRecordLint {
  import opened Wrappers
  import opened OrderedMaps
  import opened PhpValues
  import opened LintErrors
  import opened CategoryManager
  import opened RecordLintJob

  /** The API errors `execute` dies with. */
  datatype ApiError = InvalidIp | InvalidData | InvalidTitle

  /** The job `execute` queues. */
  datatype Submission = Submission(title: PageTitle, params: JobParams)

  /** The page exists and its latest revision is the submitted one. A title
      that does not parse is `None`. */
  predicate TitleOk(title: Option<PageTitle>, revision: int) {
    title.Some? && title.value.articleId != 0 && title.value.latestRevId == revision
  }

  /** `isKnownCategory( $info['type'] )`. The hard-coded names are strings,
      so a type of any other kind, or a missing one, is unknown; an entry
      that is not an array reads every field as null. */
  predicate KnownType(info: Value) {
    var t := Lookup(info, "type");
    t.Str? && IsKnownCategory(t.s)
  }

  /** The entry survives both `continue`s: known type and a `dsr`. */
  predicate Kept(info: Value) {
    KnownType(info) && IsSet(info, "dsr")
  }

  /** `templateInfo` is present and truthy. */
  predicate HasTemplate(info: Value) {
    IsSet(info, "templateInfo") && Truthy(Lookup(info, "templateInfo"))
  }

  /** The entry as the loop appends it: `location` set to the first two
      elements of `dsr`, and `templateInfo`, when present and truthy, copied
      into `params`. For a kept entry the params gain `templateInfo` exactly
      when it is present and truthy, and no field but `location` and
      `params` changes. */
  function Transform(info: Value): (r: Value)
    ensures Kept(info) ==> r.Arr? && Lookup(r, "location") == ArraySlice(Lookup(info, "dsr"), 2)
    ensures Kept(info) && HasTemplate(info) && Assignable(Lookup(info, "params")) ==>
      Field(Lookup(r, "params"), "templateInfo") == Some(Lookup(info, "templateInfo"))
    ensures Kept(info) && HasTemplate(info) && Lookup(info, "params").Arr? ==>
      forall n :: n != "templateInfo" ==> Field(Lookup(r, "params"), n) == Field(Lookup(info, "params"), n)
    ensures Kept(info) && !HasTemplate(info) ==> Lookup(r, "params") == Lookup(info, "params")
    ensures Kept(info) ==> forall name :: name != "location" && name != "params" ==> Field(r, name) == Field(info, name)
  {
    var located := Assign(info, "location", ArraySlice(Lookup(info, "dsr"), 2));
    if HasTemplate(info) then
      Assign(located, "params", Assign(Lookup(located, "params"), "templateInfo", Lookup(info, "templateInfo")))
    else located
  }

  /** A value `$v[$k] = ...` turns into or keeps as an array. */
  predicate Assignable(v: Value) {
    v.Arr? || v == Null || v == Bool(false)
  }

  /** The elements of `s` that satisfy `p`, mapped by `f`, in order. */
  function FilterMap<T, U>(s: seq<T>, p: T -> bool, f: T -> U): (r: seq<U>)
    ensures |r| <= |s|
    ensures forall x :: x in r ==> exists y :: y in s && p(y) && x == f(y)
    decreases |s|
  {
    if |s| == 0 then []
    else
      var init, last := s[..|s| - 1], s[|s| - 1];
      assert forall y :: y in init ==> y in s;
      FilterMap(init, p, f) + (if p(last) then [f(last)] else [])
  }

  /** The kept entries, transformed, in submission order. */
  function Filtered(data: seq<Value>): (r: seq<Value>)
    ensures |r| <= |data|
    ensures forall x :: x in r ==> exists info :: info in data && Kept(info) && x == Transform(info)
  {
    FilterMap(data, Kept, Transform)
  }

  /** The entry is dropped with a warning: known type, no `dsr`. */
  predicate Dropped(info: Value) {
    KnownType(info) && !IsSet(info, "dsr")
  }

  /** The lint type a warning names (`$info['type']`). */
  function TypeName(info: Value): string {
    var t := Lookup(info, "type");
    if t.Str? then t.s else ""
  }

  /** The types of the entries dropped for a missing `dsr`, one warning each,
      in order: the `k`-th warning names the type of the `k`-th such entry. */
  function MissingDsr(data: seq<Value>): (r: seq<string>)
    ensures var idx := DroppedIndices(data);
      |r| == |idx| && forall k :: 0 <= k < |idx| ==> Lookup(data[idx[k]], "type") == Str(r[k])
    ensures forall name :: name in r ==> IsKnownCategory(name)
  {
    FilterMapAtPositions(data, Dropped, TypeName);
    FilterMap(data, Dropped, TypeName)
  }

  /** The positions of the elements of `s` that satisfy `p`, in increasing
      order. */
  function Positions<T>(s: seq<T>, p: T -> bool): (idx: seq<nat>)
    ensures forall k :: 0 <= k < |idx| ==> idx[k] < |s| && p(s[idx[k]])
    ensures forall k, l :: 0 <= k < l < |idx| ==> idx[k] < idx[l]
    ensures forall i :: 0 <= i < |s| && p(s[i]) ==> i in idx
    decreases |s|
  {
    if |s| == 0 then []
    else
      var n := |s| - 1;
      var init := Positions(s[..n], p);
      assert forall k :: 0 <= k < |init| ==> s[..n][init[k]] == s[init[k]];
      assert forall i :: 0 <= i < n ==> s[..n][i] == s[i];
      init + (if p(s[n]) then [n] else [])
  }

  /** The positions of the kept entries. */
  function KeptIndices(data: seq<Value>): (idx: seq<nat>)
    ensures forall k :: 0 <= k < |idx| ==> idx[k] < |data| && Kept(data[idx[k]])
    ensures forall k, l :: 0 <= k < l < |idx| ==> idx[k] < idx[l]
    ensures forall i :: 0 <= i < |data| && Kept(data[i]) ==> i in idx
  {
    Positions(data, Kept)
  }

  /** The positions of the entries dropped for a missing `dsr`. */
  function DroppedIndices(data: seq<Value>): (idx: seq<nat>)
    ensures forall k :: 0 <= k < |idx| ==> idx[k] < |data| && Dropped(data[idx[k]])
    ensures forall k, l :: 0 <= k < l < |idx| ==> idx[k] < idx[l]
    ensures forall i :: 0 <= i < |data| && Dropped(data[i]) ==> i in idx
  {
    Positions(data, Dropped)
  }

  /** Filtering keeps order: the `k`-th result is `f` of the element at the
      `k`-th position that satisfies `p`. */
  lemma {:induction false} FilterMapAtPositions<T, U>(s: seq<T>, p: T -> bool, f: T -> U)
    ensures var idx := Positions(s, p);
      |FilterMap(s, p, f)| == |idx| && forall k :: 0 <= k < |idx| ==> FilterMap(s, p, f)[k] == f(s[idx[k]])
    decreases |s|
  {
    if |s| > 0 {
      var n := |s| - 1;
      FilterMapAtPositions(s[..n], p, f);
      var idx := Positions(s[..n], p);
      assert forall k :: 0 <= k < |idx| ==> s[..n][idx[k]] == s[idx[k]];
    }
  }

  /** The filter is an order-preserving subsequence: the `k`-th entry kept
      is the transform of the entry at the `k`-th kept position, and every
      kept position contributes. */
  lemma FilteredAtIndices(data: seq<Value>)
    ensures var idx := KeptIndices(data);
      |Filtered(data)| == |idx|
      && forall k :: 0 <= k < |idx| ==> Filtered(data)[k] == Transform(data[idx[k]])
  {
    FilterMapAtPositions(data, Kept, Transform);
  }

  /** The entries the job reads: `type`, `location` and `params`. */
  function JobEntry(info: Value): ErrorInfo {
    var t := Lookup(info, "type");
    ErrorInfo(if t.Str? then t.s else "", Lookup(info, "location"), Lookup(info, "params"))
  }

  function JobEntries(infos: seq<Value>): (es: seq<ErrorInfo>)
    ensures |es| == |infos| && forall i :: 0 <= i < |infos| ==> es[i] == JobEntry(infos[i])
  {
    seq(|infos|, i requires 0 <= i < |infos| => JobEntry(infos[i]))
  }

  /** Every error queued has a known category, and its location is the
      `dsr` prefix of the entry it came from. */
  lemma QueuedErrors(data: seq<Value>)
    ensures var es := JobEntries(Filtered(data));
      var idx := KeptIndices(data);
      |es| == |idx|
      && forall k :: 0 <= k < |es| ==>
           (&& IsKnownCategory(es[k].typeName)
            && Lookup(data[idx[k]], "type") == Str(es[k].typeName)
            && es[k].location == ArraySlice(Lookup(data[idx[k]], "dsr"), 2))
  {
    FilteredAtIndices(data);
    var idx := KeptIndices(data);
  }

  /** Whatever the job then keeps of a queued submission, every error it
      saves has a category with a database id. */
  lemma SavedCategoriesKnown<K(!new)>(id: LintError -> K, data: seq<Value>, max: nat)
    ensures forall e :: e in SaveList(id, JobEntries(Filtered(data)), max) ==> IsKnownCategory(e.category)
  {
    var infos := JobEntries(Filtered(data));
    var es := Submitted(infos);
    QueuedErrors(data);
    ToSetValues(id, es, max);
    forall e | e in SaveList(id, infos, max) ensures IsKnownCategory(e.category) {
      var i :| 0 <= i < |es| && es[i] == e;
      assert e.category == infos[i].typeName;
    }
  }

  /** One more entry of the loop: it is forwarded when kept and logged when
      dropped for a missing `dsr`. */
  lemma LoopStep(infos: seq<Value>, i: nat)
    requires i < |infos|
    ensures Filtered(infos[..i + 1]) == Filtered(infos[..i]) + (if Kept(infos[i]) then [Transform(infos[i])] else [])
    ensures MissingDsr(infos[..i + 1]) == MissingDsr(infos[..i]) + (if Dropped(infos[i]) then [TypeName(infos[i])] else [])
  {
    assert infos[..i + 1][..i] == infos[..i];
  }

  /** `execute`. `submitterAllowed` is whether the request's IP is in
      `$wgLinterSubmitterWhitelist`, `data` the decoded `data` parameter
      (a value that is not an array when it does not decode), `title` the
      parsed page name. On success the job to queue and the warnings
      logged (the type of each entry dropped for a missing `dsr`). */
  method Execute(submitterAllowed: bool, data: Value, title: Option<PageTitle>, revision: int)
    returns (r: Result<Submission, ApiError>, logged: seq<string>)
    ensures !submitterAllowed ==> r == Err(InvalidIp)
    ensures submitterAllowed && !data.Arr? ==> r == Err(InvalidData)
    ensures submitterAllowed && data.Arr? && !TitleOk(title, revision) ==> r == Err(InvalidTitle)
    ensures r.Ok? <==> submitterAllowed && data.Arr? && TitleOk(title, revision)
    ensures r.Ok? ==> r.value == Submission(title.value, JobParams(JobEntries(Filtered(Values(data.entries))), revision))
    ensures r.Ok? ==> logged == MissingDsr(Values(data.entries))
    ensures r.Err? ==> logged == []
  {
    logged := [];
    if !submitterAllowed {
      return Err(InvalidIp), logged;
    }
    if !data.Arr? {
      return Err(InvalidData), logged;
    }
    if title.None? || title.value.articleId == 0 || title.value.latestRevId != revision {
      return Err(InvalidTitle), logged;
    }
    var infos := Values(data.entries);
    var errors: seq<Value> := [];
    var i := 0;
    while i < |infos|
      invariant 0 <= i <= |infos|
      invariant errors == Filtered(infos[..i])
      invariant logged == MissingDsr(infos[..i])
    {
      var info := infos[i];
      LoopStep(infos, i);
      if !KnownType(info) {
        // not a category that can be stored
      } else if !IsSet(info, "dsr") {
        logged := logged + [TypeName(info)];
      } else {
        errors := errors + [Transform(info)];
      }
      i := i + 1;
    }
    assert infos[..i] == infos;
    return Ok(Submission(title.value, JobParams(JobEntries(errors), revision))), logged;
  }
}
