/** The upstream-update state of one channel, driven by detect and apply steps. */
module UpstreamChannel {
  import opened Text
  import opened NameLists
  import opened Sequences
  import opened UpstreamModels

  /** `models` is the comma-separated text the channel stores. */
  datatype Channel = Channel(models: string, ignored: seq<string>, pendingAdd: seq<string>, pendingRemove: seq<string>,
                             lastCheck: int, autoSync: bool)

  datatype Fetch = Failed | Fetched(names: seq<string>)

  datatype Event =
    | Detect(fetch: Fetch, mapping: Mapping, now: int, force: bool, minInterval: int, allowAuto: bool)
    | Apply(add: seq<string>, ignore: seq<string>, remove: seq<string>, at: int)

  function Models(models: string): seq<string> {
    Normalize(Fields(models, ','))
  }

  // ----- One detection -----

  predicate Throttled(c: Channel, e: Event)
    requires e.Detect?
  {
    !e.force && c.lastCheck > 0 && e.now - c.lastCheck < e.minInterval
  }

  function FoundAdd(c: Channel, names: seq<string>, mapping: Mapping, matches: Matcher): seq<string> {
    PendingAdd(Fields(c.models, ','), names, c.ignored, mapping, matches)
  }

  function FoundRemove(c: Channel, names: seq<string>, mapping: Mapping): seq<string> {
    PendingRemove(Fields(c.models, ','), names, mapping)
  }

  predicate AutoApplies(c: Channel, e: Event, matches: Matcher)
    requires e.Detect?
  {
    !Throttled(c, e) && e.fetch.Fetched? && e.allowAuto && c.autoSync
    && FoundAdd(c, e.fetch.names, e.mapping, matches) != []
  }

  function AfterDetect(c: Channel, e: Event, matches: Matcher): Channel
    requires e.Detect?
  {
    if Throttled(c, e) then c
    else if e.fetch.Failed? then c.(lastCheck := e.now)
    else
      var add := FoundAdd(c, e.fetch.names, e.mapping, matches);
      var auto := AutoApplies(c, e, matches);
      c.(models := if auto then Join(Models(c.models) + add, ',') else c.models,
         pendingAdd := if auto then [] else add,
         pendingRemove := FoundRemove(c, e.fetch.names, e.mapping),
         lastCheck := e.now)
  }

  // ----- One application -----

  function Added(c: Channel, e: Event): seq<string>
    requires e.Apply?
  {
    Intersect(e.add, c.pendingAdd)
  }

  function Dismissed(c: Channel, e: Event): seq<string>
    requires e.Apply?
  {
    Intersect(e.ignore, c.pendingAdd)
  }

  function Removed(c: Channel, e: Event): seq<string>
    requires e.Apply?
  {
    Subtract(Intersect(e.remove, c.pendingRemove), Added(c, e))
  }

  function NextModels(c: Channel, e: Event): seq<string>
    requires e.Apply?
  {
    ApplySelected(Models(c.models), Added(c, e), Removed(c, e))
  }

  function NextIgnored(c: Channel, e: Event): seq<string>
    requires e.Apply?
  {
    var merged := Merge(c.ignored, Dismissed(c, e));
    if Added(c, e) == [] then merged else Subtract(merged, Added(c, e))
  }

  function AfterApply(c: Channel, e: Event): Channel
    requires e.Apply?
  {
    Channel(if NextModels(c, e) == Models(c.models) then c.models else Join(NextModels(c, e), ','),
            NextIgnored(c, e),
            Subtract(c.pendingAdd, Added(c, e) + Dismissed(c, e)),
            Subtract(c.pendingRemove, Removed(c, e)),
            e.at, c.autoSync)
  }

  /** Normalising the pending lists first, as the source does, changes nothing. */
  lemma PendingNormalized(c: Channel, e: Event)
    requires e.Apply?
    ensures
      var add, remove := Normalize(c.pendingAdd), Normalize(c.pendingRemove);
      && Intersect(e.add, add) == Added(c, e)
      && Intersect(e.ignore, add) == Dismissed(c, e)
      && Subtract(Intersect(e.remove, remove), Added(c, e)) == Removed(c, e)
      && Subtract(add, Added(c, e) + Dismissed(c, e)) == Subtract(c.pendingAdd, Added(c, e) + Dismissed(c, e))
      && Subtract(remove, Removed(c, e)) == Subtract(c.pendingRemove, Removed(c, e))
  {
    NormalizeNormal(Normalize(c.pendingAdd));
    NormalizeNormal(Normalize(c.pendingRemove));
  }

  /** The stored channel. Both operations read its settings into a local copy and write it back at the end. */
  class ChannelRecord {
    var channel: Channel

    method CheckAndPersist(fetch: Fetch, mapping: Mapping, now: int, force: bool, minInterval: int, allowAuto: bool,
                           matches: Matcher) returns (modelsChanged: bool, autoAdded: int, failed: bool)
      modifies this
      ensures
        var c, e := old(channel), Detect(fetch, mapping, now, force, minInterval, allowAuto);
        var auto := AutoApplies(c, e, matches);
        && channel == AfterDetect(c, e, matches)
        && modelsChanged == auto
        && autoAdded == (if auto then |FoundAdd(c, fetch.names, mapping, matches)| else 0)
        && failed == (!Throttled(c, e) && fetch.Failed?)
    {
      modelsChanged, autoAdded, failed := false, 0, false;
      var c := channel;
      if !force {
        if c.lastCheck > 0 && now - c.lastCheck < minInterval {
          return;
        }
      }
      if fetch.Failed? {
        channel := c.(lastCheck := now);
        failed := true;
        return;
      }
      var add, remove := CollectPending(Fields(c.models, ','), fetch.names, c.ignored, mapping, matches);
      var models, detected := c.models, add;
      if allowAuto && c.autoSync && |add| > 0 {
        var origin := Normalize(Fields(models, ','));
        var merged := MergeModelNames(origin, add);
        assert merged == origin + add by {
          NormalizeNormal(origin);
          MergeDisjoint(origin, add);
        }
        if |merged| > |origin| {
          models := Join(merged, ',');
          autoAdded := |merged| - |origin|;
          modelsChanged := true;
        }
        detected := [];
      }
      channel := c.(models := models, pendingAdd := detected, pendingRemove := remove, lastCheck := now);
    }

    method ApplyUpdates(addInput: seq<string>, ignoreInput: seq<string>, removeInput: seq<string>, now: int)
      returns (added: seq<string>, removing: seq<string>, changed: bool)
      modifies this
      ensures
        var c, e := old(channel), Apply(addInput, ignoreInput, removeInput, now);
        && channel == AfterApply(c, e)
        && added == Added(c, e) && removing == Removed(c, e)
        && changed == (NextModels(c, e) != Models(c.models))
    {
      var c := channel;
      PendingNormalized(c, Apply(addInput, ignoreInput, removeInput, now));
      var pendingAdd, pendingRemove := Normalize(c.pendingAdd), Normalize(c.pendingRemove);
      added := Intersect(addInput, pendingAdd);
      var dismissed := Intersect(ignoreInput, pendingAdd);
      removing := Intersect(removeInput, pendingRemove);
      removing := Subtract(removing, added);
      var origin := Normalize(Fields(c.models, ','));
      var next := ApplySelected(origin, added, removing);
      changed := origin != next;
      var models := if changed then Join(next, ',') else c.models;
      var ignored := MergeModelNames(c.ignored, dismissed);
      if |added| > 0 {
        ignored := Subtract(ignored, added);
      }
      var remaining := Subtract(pendingAdd, added + dismissed);
      var remainingRemove := Subtract(pendingRemove, removing);
      channel := Channel(models, ignored, remaining, remainingRemove, now, c.autoSync);
    }
  }

  // ----- Whole runs -----

  function Step(c: Channel, e: Event, matches: Matcher): Channel {
    if e.Detect? then AfterDetect(c, e, matches) else AfterApply(c, e)
  }

  function Run(c: Channel, events: seq<Event>, matches: Matcher): Channel {
    if events == [] then c else Step(Run(c, events[..|events| - 1], matches), events[|events| - 1], matches)
  }

  // ----- What the stored text gives back -----

  /** The names a text holds, comma by comma. */
  function Pieces(text: string): seq<string> {
    Trimmed(Split(text, ','))
  }

  lemma BlankDropped(xs: seq<string>)
    ensures Trimmed([""] + xs) == Trimmed(xs) == Trimmed(xs + [""])
  {
    FlatMapConcat(TrimmedName, [""], xs);
    FlatMapConcat(TrimmedName, xs, [""]);
    assert [""][..0] == [];
    assert FlatMap(TrimmedName, [""]) == [];
  }

  /** Trimming commas off the ends loses no name. */
  lemma {:induction false} PiecesOfTrim(text: string)
    ensures Pieces(Trim(text, Is(','))) == Pieces(text)
  {
    var n := |text| - 1;
    if text != "" && text[0] == ',' {
      PiecesOfTrim(text[1..]);
      BlankDropped(Split(text[1..], ','));
    } else if text != "" && text[n] == ',' {
      PiecesOfTrim(text[..n]);
      SplitConcat(text[..n], "", ',');
      assert text == text[..n] + [','] + "";
      BlankDropped(Split(text[..n], ','));
    }
  }

  lemma PiecesOfFields(text: string)
    ensures Trimmed(Fields(text, ',')) == Pieces(text)
  {
    PiecesOfTrim(text);
    BlankDropped([]);
    assert [""] + [] == [""];
  }

  lemma {:induction false} PiecesOfJoin(names: seq<string>)
    ensures Pieces(Join(names, ',')) == FlatMap(Pieces, names)
  {
    if names == [] {
      BlankDropped([]);
      assert [""] + [] == [""];
    } else {
      var first, rest := names[0], names[1..];
      PiecesOfJoin(rest);
      assert names == [first] + rest;
      FlatMapConcat(Pieces, [first], rest);
      assert [first][..0] == [];
      assert FlatMap(Pieces, [first]) == Pieces(first);
      if rest != [] {
        SplitConcat(first, Join(rest, ','), ',');
        FlatMapConcat(TrimmedName, Split(first, ','), Split(Join(rest, ','), ','));
      }
    }
  }

  /** Storing a list and reading it back gives the pieces of its names. */
  lemma ModelsArePieces(names: seq<string>)
    ensures Models(Join(names, ',')) == Uniq(FlatMap(Pieces, names))
    ensures forall n :: n in Models(Join(names, ',')) <==> exists m | m in names :: n in Pieces(m)
  {
    PiecesOfFields(Join(names, ','));
    PiecesOfJoin(names);
    UniqMembers(FlatMap(Pieces, names));
    FlatMapMembers(Pieces, names);
  }

  lemma OnePiece(name: string)
    requires IsName(name) && ',' !in name
    ensures Pieces(name) == [name]
  {
    SplitOfConcat(name, "", ',');
    NormalizeNormal([name]);
  }

  lemma {:induction false} TrimmedCommaFree(xs: seq<string>)
    requires forall x | x in xs :: ',' !in x
    ensures forall x | x in Trimmed(xs) :: ',' !in x
  {
    if xs != [] {
      TrimmedCommaFree(xs[..|xs| - 1]);
      TrimShrinks(xs[|xs| - 1], IsSpace);
    }
  }

  lemma ModelsCommaFree(models: string)
    ensures CommaFree(Models(models))
  {
    FieldsClean(models, ',');
    TrimmedCommaFree(Fields(models, ','));
    UniqMembers(Trimmed(Fields(models, ',')));
  }

  predicate CommaFree(names: seq<string>) {
    forall n | n in names :: ',' !in n
  }

  /** The stored text gives the list back exactly when no name holds a comma. */
  lemma ModelsOfJoin(names: seq<string>)
    requires Normal(names)
    ensures Models(Join(names, ',')) == names <==> CommaFree(names)
  {
    ModelsCommaFree(Join(names, ','));
    if CommaFree(names) {
      if names != [] {
        assert IsName(names[0]) && IsName(names[|names| - 1]);
      }
      FieldsOfJoin(names, ',');
      NormalizeNormal(names);
    }
  }

  /** Names without a comma are never lost. */
  lemma PlainKept(names: seq<string>, n: string)
    requires n in names && IsName(n) && ',' !in n
    ensures n in Models(Join(names, ','))
  {
    ModelsArePieces(names);
    OnePiece(n);
    assert n in Pieces(n);
  }

  // ----- The shape of a channel in every run -----

  predicate NothingPending(c: Channel) {
    c.pendingAdd == [] && c.pendingRemove == []
  }

  /** What is pending is normal, nothing is pending both ways, and only listed models are pending removal. */
  ghost predicate Orderly(c: Channel) {
    && Normal(c.pendingAdd) && Normal(c.pendingRemove)
    && Elems(c.pendingAdd) !! Elems(c.pendingRemove)
    && forall n | n in c.pendingRemove :: n in Models(c.models)
  }

  /** A detection that reached its upstream leaves the channel orderly, whatever was pending before. Automatic sync
      keeps every listed model, and appends exactly the names found if and only if none holds a comma. */
  lemma DetectOrderly(c: Channel, e: Event, matches: Matcher)
    requires e.Detect? && !Throttled(c, e) && e.fetch.Fetched?
    ensures Orderly(AfterDetect(c, e, matches))
    ensures
      var models, models' := Models(c.models), Models(AfterDetect(c, e, matches).models);
      var add := FoundAdd(c, e.fetch.names, e.mapping, matches);
      if AutoApplies(c, e, matches) then
        (forall n | n in models :: n in models') && (models' == models + add <==> CommaFree(add))
      else models' == models
  {
    if AutoApplies(c, e, matches) {
      AutoModels(c, FoundAdd(c, e.fetch.names, e.mapping, matches));
    }
  }

  lemma AutoModels(c: Channel, add: seq<string>)
    requires Normal(add) && forall n | n in add :: n !in Models(c.models)
    ensures
      var models, models' := Models(c.models), Models(Join(Models(c.models) + add, ','));
      (forall n | n in models :: n in models') && (models' == models + add <==> CommaFree(add))
  {
    var models := Models(c.models);
    ModelsCommaFree(c.models);
    MergeDisjoint(models, add);
    ModelsOfJoin(models + add);
    forall n | n in models ensures n in Models(Join(models + add, ',')) {
      PlainKept(models + add, n);
    }
  }

  /** The selections an application acts on. */
  lemma Selections(c: Channel, e: Event)
    requires Orderly(c) && e.Apply?
    ensures forall n :: n in Added(c, e) <==> n in Normalize(e.add) && n in c.pendingAdd
    ensures forall n :: n in Dismissed(c, e) <==> n in Normalize(e.ignore) && n in c.pendingAdd
    ensures forall n :: n in Removed(c, e) <==> n in Normalize(e.remove) && n in c.pendingRemove
  {
    NormalizeNormal(c.pendingAdd);
    NormalizeNormal(c.pendingRemove);
    NormalizeNormal(Intersect(e.remove, c.pendingRemove));
    NormalizeNormal(Added(c, e));
    assert forall n | n in c.pendingAdd :: n in Elems(c.pendingAdd);
    assert forall n | n in c.pendingRemove :: n in Elems(c.pendingRemove);
  }

  lemma NextMembers(c: Channel, e: Event)
    requires e.Apply?
    ensures Normal(NextModels(c, e))
    ensures forall n :: n in NextModels(c, e) <==>
      n in Added(c, e) || (n in Models(c.models) && n !in Removed(c, e))
  {
    ApplySelectedMembers(Models(c.models), Added(c, e), Removed(c, e));
    NormalizeNormal(Models(c.models));
    NormalizeNormal(Added(c, e));
    NormalizeNormal(Removed(c, e));
  }

  /** The model list after an application is the list it computed, if and only if no added name holds a comma. In
      any case it has all names of that list without a comma. */
  lemma ApplyModels(c: Channel, e: Event)
    requires e.Apply?
    ensures Models(AfterApply(c, e).models) == NextModels(c, e) <==> CommaFree(Added(c, e))
    ensures forall n | n in NextModels(c, e) && ',' !in n :: n in Models(AfterApply(c, e).models)
  {
    NextMembers(c, e);
    ModelsCommaFree(c.models);
    ModelsOfJoin(NextModels(c, e));
    assert CommaFree(NextModels(c, e)) <==> CommaFree(Added(c, e));
    forall n | n in NextModels(c, e) && ',' !in n ensures n in Models(AfterApply(c, e).models) {
      PlainKept(NextModels(c, e), n);
    }
  }

  lemma ApplyLists(c: Channel, e: Event)
    requires Orderly(c) && e.Apply?
    ensures
      var c' := AfterApply(c, e);
      && Normal(c'.pendingAdd) && Normal(c'.pendingRemove)
      && (forall n :: n in Normalize(c'.ignored) <==>
            (n in Normalize(c.ignored) || n in Dismissed(c, e)) && n !in Added(c, e))
      && (forall n :: n in c'.pendingAdd <==> n in c.pendingAdd && n !in Added(c, e) && n !in Dismissed(c, e))
      && (forall n :: n in c'.pendingRemove <==> n in c.pendingRemove && n !in Removed(c, e))
      && c'.lastCheck == e.at && c'.autoSync == c.autoSync
  {
    var added, dismissed := Added(c, e), Dismissed(c, e);
    NormalizeNormal(c.pendingAdd);
    NormalizeNormal(c.pendingRemove);
    NormalizeNormal(added);
    NormalizeNormal(dismissed);
    NormalizeNormal(Removed(c, e));
    MergeMembers(c.ignored, dismissed);
    MergeMembers(added, dismissed);
    var merged := Merge(c.ignored, dismissed);
    NormalizeNormal(merged);
    NormalizeNormal(Subtract(merged, added));
  }

  /** From any state, a name selected and pending for addition is added and not removed: it is then listed, unless it
      holds a comma, is no longer ignored, and a removal that was pending for it stays pending. */
  lemma AddWins(c: Channel, e: Event, n: string)
    requires e.Apply? && n in Normalize(e.add) && n in Normalize(c.pendingAdd)
    ensures
      var c' := AfterApply(c, e);
      && n !in Removed(c, e)
      && (',' !in n ==> n in Models(c'.models))
      && n !in Normalize(c'.ignored) && n !in c'.pendingAdd
      && (n in c'.pendingRemove <==> n in Normalize(c.pendingRemove))
  {
    var added, merged := Added(c, e), Merge(c.ignored, Dismissed(c, e));
    assert n in added;
    NormalizeNormal(added);
    NormalizeNormal(Removed(c, e));
    NormalizeNormal(merged);
    NormalizeNormal(Subtract(merged, added));
    MergeMembers(added, Dismissed(c, e));
    NextMembers(c, e);
    ApplyModels(c, e);
  }

  lemma ApplyOrderly(c: Channel, e: Event)
    requires Orderly(c) && e.Apply?
    ensures Orderly(AfterApply(c, e))
  {
    var c' := AfterApply(c, e);
    NextMembers(c, e);
    ApplyModels(c, e);
    ApplyLists(c, e);
    ModelsCommaFree(c.models);
    forall n ensures !(n in c'.pendingAdd && n in c'.pendingRemove) {
      assert n in c.pendingAdd <==> n in Elems(c.pendingAdd);
      assert n in c.pendingRemove <==> n in Elems(c.pendingRemove);
    }
  }

  /** From any channel with nothing pending, every run stays orderly. */
  lemma {:induction false} RunOrderly(c: Channel, events: seq<Event>, matches: Matcher)
    requires NothingPending(c)
    ensures Orderly(Run(c, events, matches))
  {
    if events != [] {
      var past, e := events[..|events| - 1], events[|events| - 1];
      RunOrderly(c, past, matches);
      var before := Run(c, past, matches);
      if e.Apply? {
        ApplyOrderly(before, e);
      } else if !Throttled(before, e) && e.fetch.Fetched? {
        DetectOrderly(before, e, matches);
      }
    }
  }

  // ----- When a detection acts, and what it may touch -----

  /** A detection is due when it is forced, the channel was never checked, or the interval has passed. Otherwise it
      changes nothing. A due one that does not reach its upstream only notes the time. */
  lemma DetectsWhenDue(c: Channel, e: Event, matches: Matcher)
    requires e.Detect?
    ensures
      var c', due := AfterDetect(c, e, matches), e.force || c.lastCheck <= 0 || e.now - c.lastCheck >= e.minInterval;
      && (!due ==> c' == c)
      && (due ==> c'.lastCheck == e.now)
      && (due && e.fetch.Failed? ==> c' == c.(lastCheck := e.now))
      && c'.ignored == c.ignored && c'.autoSync == c.autoSync
  {
  }

  /** A due detection adds to the model list by itself exactly when that is asked for and allowed. Then nothing is left
      pending that it could store; otherwise the list is untouched and all that was found is pending. */
  lemma SyncsWhenAllowed(c: Channel, e: Event, matches: Matcher, n: string)
    requires e.Detect? && e.fetch.Fetched? && (e.force || c.lastCheck <= 0 || e.now - c.lastCheck >= e.minInterval)
    ensures
      var c' := AfterDetect(c, e, matches);
      var found := n in FoundAdd(c, e.fetch.names, e.mapping, matches);
      if e.allowAuto && c.autoSync then
        && c'.pendingAdd == []
        && (n in Models(c.models) || (found && ',' !in n) ==> n in Models(c'.models))
      else c'.models == c.models && (n in c'.pendingAdd <==> found)
  {
    var add := FoundAdd(c, e.fetch.names, e.mapping, matches);
    DetectOrderly(c, e, matches);
    if AutoApplies(c, e, matches) && n in add && ',' !in n {
      PlainKept(Models(c.models) + add, n);
    }
  }

  /** No source of a redirect is pending removal, none of those listed has left the list, and no target is pending
      addition. */
  ghost predicate Spares(c: Channel, mapping: Mapping, listed: seq<string>) {
    && Orderly(c)
    && (forall source | source in mapping :: source !in c.pendingRemove && mapping[source] !in c.pendingAdd)
    && (forall source | source in mapping && source in listed :: source in Models(c.models))
  }

  /** Redirects are left alone by a detection that reached its upstream and any applications after it. */
  lemma {:induction false} RedirectsSpared(c: Channel, detect: Event, applies: seq<Event>, matches: Matcher)
    requires detect.Detect? && !Throttled(c, detect) && detect.fetch.Fetched?
    requires forall e | e in applies :: e.Apply?
    ensures Spares(Run(c, [detect] + applies, matches), detect.mapping, Models(c.models))
  {
    if applies == [] {
      assert [detect] + applies == [] + [detect];
      RunNext(c, [], detect, matches);
      DetectedRedirects(c, detect, matches);
    } else {
      var n := |applies| - 1;
      var past := [detect] + applies[..n];
      RedirectsSpared(c, detect, applies[..n], matches);
      assert [detect] + applies == past + [applies[n]];
      RunNext(c, past, applies[n], matches);
      AppliedRedirects(Run(c, past, matches), applies[n], detect.mapping, Models(c.models));
    }
  }

  lemma RunNext(c: Channel, events: seq<Event>, e: Event, matches: Matcher)
    ensures Run(c, events + [e], matches) == Step(Run(c, events, matches), e, matches)
  {
    assert (events + [e])[..|events|] == events;
  }

  lemma DetectedRedirects(c: Channel, detect: Event, matches: Matcher)
    requires detect.Detect? && !Throttled(c, detect) && detect.fetch.Fetched?
    ensures Spares(AfterDetect(c, detect, matches), detect.mapping, Models(c.models))
  {
    DetectOrderly(c, detect, matches);
    var local, names := Fields(c.models, ','), detect.fetch.names;
    forall source | source in detect.mapping
      ensures source !in FoundRemove(c, names, detect.mapping)
      ensures detect.mapping[source] !in FoundAdd(c, names, detect.mapping, matches)
    {
      PendingMembers(local, names, c.ignored, detect.mapping, matches, source);
      PendingMembers(local, names, c.ignored, detect.mapping, matches, detect.mapping[source]);
    }
  }

  /** An application only shortens what is pending, and only lets go of models that were pending removal. */
  lemma AppliedRedirects(c: Channel, e: Event, mapping: Mapping, listed: seq<string>)
    requires Spares(c, mapping, listed) && e.Apply?
    ensures Spares(AfterApply(c, e), mapping, listed)
  {
    ApplyOrderly(c, e);
    Selections(c, e);
    NextMembers(c, e);
    ApplyModels(c, e);
    ApplyLists(c, e);
    ModelsCommaFree(c.models);
  }

  // ----- Conservation -----

  /** Every pending addition goes to exactly one place: the model list if selected, else the ignore list if
      dismissed, else it stays pending. */
  ghost predicate AddsSettled(c: Channel, e: Event, c': Channel)
    requires e.Apply?
  {
    && (forall n | n in c.pendingAdd ::
          var models, ignored, pending := n in Models(c'.models), n in Normalize(c'.ignored), n in c'.pendingAdd;
          if n in Normalize(e.add) then models && !ignored && !pending
          else if n in Normalize(e.ignore) then !models && ignored && !pending
          else !models && !ignored && pending)
    && Elems(c'.pendingAdd) <= Elems(c.pendingAdd)
  }

  /** Every pending removal leaves the model list and the pending list if selected, else it stays in both. */
  ghost predicate RemovesSettled(c: Channel, e: Event, c': Channel)
    requires e.Apply?
  {
    && (forall n | n in c.pendingRemove ::
          var selected := n in Normalize(e.remove);
          (n in Models(c'.models)) == !selected && (n in c'.pendingRemove) == !selected)
    && Elems(c'.pendingRemove) <= Elems(c.pendingRemove)
  }

  /** Names that were pending neither way are where they were. */
  ghost predicate RestKept(c: Channel, c': Channel) {
    forall n | n !in c.pendingAdd && n !in c.pendingRemove ::
      && (n in Models(c'.models) <==> n in Models(c.models))
      && (n in Normalize(c'.ignored) <==> n in Normalize(c.ignored))
  }

  ghost predicate Conserves(c: Channel, e: Event, c': Channel)
    requires e.Apply?
  {
    AddsSettled(c, e, c') && RemovesSettled(c, e, c') && RestKept(c, c')
  }

  /** No added name holds a comma, and no other pending addition is already listed or, unless dismissed, ignored. */
  predicate Clean(c: Channel, e: Event)
    requires e.Apply?
  {
    && CommaFree(Added(c, e))
    && (forall n | n in c.pendingAdd && n !in Added(c, e) ::
          && n !in Models(c.models)
          && (n !in Dismissed(c, e) ==> n !in Normalize(c.ignored)))
  }

  lemma CleanModels(c: Channel, e: Event)
    requires Orderly(c) && e.Apply? && Clean(c, e)
    ensures forall n :: n in Models(AfterApply(c, e).models) <==>
      (n in Normalize(e.add) && n in c.pendingAdd)
      || (n in Models(c.models) && !(n in Normalize(e.remove) && n in c.pendingRemove))
    ensures forall n :: !(n in c.pendingAdd && n in c.pendingRemove)
  {
    Selections(c, e);
    NextMembers(c, e);
    ApplyModels(c, e);
    forall n ensures !(n in c.pendingAdd && n in c.pendingRemove) {
      assert n in c.pendingAdd <==> n in Elems(c.pendingAdd);
      assert n in c.pendingRemove <==> n in Elems(c.pendingRemove);
    }
  }

  lemma CleanAdds(c: Channel, e: Event)
    requires Orderly(c) && e.Apply? && Clean(c, e)
    ensures AddsSettled(c, e, AfterApply(c, e))
  {
    Selections(c, e);
    CleanModels(c, e);
    ApplyLists(c, e);
  }

  lemma CleanRest(c: Channel, e: Event)
    requires Orderly(c) && e.Apply? && Clean(c, e)
    ensures RemovesSettled(c, e, AfterApply(c, e)) && RestKept(c, AfterApply(c, e))
  {
    Selections(c, e);
    CleanModels(c, e);
    ApplyLists(c, e);
  }

  lemma ConservesClean(c: Channel, e: Event)
    requires Orderly(c) && e.Apply? && AddsSettled(c, e, AfterApply(c, e))
    ensures Clean(c, e)
  {
    var c' := AfterApply(c, e);
    Selections(c, e);
    NextMembers(c, e);
    ApplyModels(c, e);
    ApplyLists(c, e);
    ModelsCommaFree(c.models);
    ModelsCommaFree(c'.models);
    forall n | n in c.pendingAdd && n !in Added(c, e) ensures n !in Models(c.models) {
      assert n in Elems(c.pendingAdd) && (n in c.pendingRemove ==> n in Elems(c.pendingRemove));
    }
  }

  /** Conservation: at every application of every run, each pending addition ends up in exactly one of the model
      list, the ignore list or still pending, each pending removal is carried out or still pending, and no other
      name moves, if and only if the application is clean. */
  lemma RunConservesExactly(c: Channel, events: seq<Event>, e: Event, matches: Matcher)
    requires NothingPending(c) && e.Apply?
    ensures
      var before := Run(c, events, matches);
      Conserves(before, e, Step(before, e, matches)) <==> Clean(before, e)
  {
    var before := Run(c, events, matches);
    RunOrderly(c, events, matches);
    if Clean(before, e) {
      CleanAdds(before, e);
      CleanRest(before, e);
    } else if Conserves(before, e, Step(before, e, matches)) {
      ConservesClean(before, e);
    }
  }

  // ----- Upstream names that keep every application clean -----

  /** A name that the comma-separated text holds verbatim and the ignore list covers. */
  predicate Keepable(name: string, matches: Matcher) {
    ',' !in name && HidesItself(name, matches)
  }

  ghost predicate Fetches(e: Event, upstream: string -> bool) {
    e.Detect? && e.fetch.Fetched? ==> forall n | n in Normalize(e.fetch.names) :: upstream(n)
  }

  ghost predicate Tidy(c: Channel) {
    forall n | n in c.pendingAdd :: ',' !in n && n !in Models(c.models) && n !in Normalize(c.ignored)
  }

  ghost predicate AllKeepable(upstream: string -> bool, matches: Matcher) {
    forall n | IsName(n) && upstream(n) :: Keepable(n, matches)
  }

  lemma DetectTidy(c: Channel, e: Event, upstream: string -> bool, matches: Matcher)
    requires e.Detect? && !Throttled(c, e) && e.fetch.Fetched?
    requires AllKeepable(upstream, matches) && Fetches(e, upstream)
    ensures Tidy(AfterDetect(c, e, matches))
  {
    forall n | n in FoundAdd(c, e.fetch.names, e.mapping, matches) ensures ',' !in n && n !in Normalize(c.ignored) {
      assert Keepable(n, matches);
      if n in Normalize(c.ignored) {
        assert Ignores(n, n, matches);
      }
    }
  }

  lemma ApplyTidy(c: Channel, e: Event)
    requires Orderly(c) && Tidy(c) && e.Apply?
    ensures Clean(c, e) && Tidy(AfterApply(c, e))
  {
    Selections(c, e);
    NextMembers(c, e);
    ApplyModels(c, e);
    ApplyLists(c, e);
  }

  lemma {:induction false} RunTidy(c: Channel, events: seq<Event>, upstream: string -> bool, matches: Matcher)
    requires NothingPending(c)
    requires AllKeepable(upstream, matches) && AllFetch(events, upstream)
    ensures Orderly(Run(c, events, matches)) && Tidy(Run(c, events, matches))
  {
    RunOrderly(c, events, matches);
    if events != [] {
      var past, e := events[..|events| - 1], events[|events| - 1];
      RunTidy(c, past, upstream, matches);
      var before := Run(c, past, matches);
      if e.Apply? {
        ApplyTidy(before, e);
      } else if !Throttled(before, e) && e.fetch.Fetched? {
        DetectTidy(before, e, upstream, matches);
      }
    }
  }

  ghost predicate AllFetch(events: seq<Event>, upstream: string -> bool) {
    forall e | e in events :: Fetches(e, upstream)
  }

  /** Whether every application of every run that starts with nothing pending and fetches only such names is clean. */
  ghost predicate AlwaysClean(upstream: string -> bool, matches: Matcher) {
    forall c: Channel, events, e: Event | NothingPending(c) && e.Apply? && AllFetch(events, upstream) ::
      Clean(Run(c, events, matches), e)
  }

  /** Every application of every run is clean, and so conserves, if and only if every name the upstreams may have holds
      no comma and hides itself. */
  lemma CleanExactly(upstream: string -> bool, matches: Matcher)
    ensures AlwaysClean(upstream, matches) <==> AllKeepable(upstream, matches)
  {
    if AllKeepable(upstream, matches) {
      forall c: Channel, events, e: Event | NothingPending(c) && e.Apply? && AllFetch(events, upstream)
        ensures Clean(Run(c, events, matches), e)
      {
        RunTidy(c, events, upstream, matches);
        ApplyTidy(Run(c, events, matches), e);
      }
    } else {
      var name :| IsName(name) && upstream(name) && !Keepable(name, matches);
      var c, detect, e := Unclean(name, matches);
      NormalizeNormal([name]);
      assert Fetches(detect, upstream) && AllFetch([detect], upstream);
      assert !Clean(Run(c, [detect], matches), e);
    }
  }

  /** Detecting one other name and applying the result: the comma is lost when the name is added, or the name stays
      both pending and ignored. */
  lemma Unclean(name: string, matches: Matcher) returns (c: Channel, detect: Event, e: Event)
    requires IsName(name) && !Keepable(name, matches)
    ensures NothingPending(c) && e.Apply?
    ensures detect.Detect? && detect.fetch == Fetched([name])
    ensures !Clean(Run(c, [detect], matches), e)
  {
    detect := Detect(Fetched([name]), map[], 0, true, 0, false);
    if HidesItself(name, matches) {
      c, e := Channel("", [], [], [], 0, false), Apply([name], [], [], 0);
    } else {
      c, e := Channel("", [name], [], [], 0, false), Apply([], [], [], 0);
    }
    OneDetected(c, detect, name, matches);
    NormalizeNormal([name]);
    var found := Run(c, [detect], matches);
    assert name in Normalize(found.pendingAdd) by {
      NormalizeNormal(found.pendingAdd);
    }
    assert name in Added(found, e) <==> HidesItself(name, matches);
  }

  lemma OneDetected(c: Channel, detect: Event, name: string, matches: Matcher)
    requires IsName(name) && c.models == "" && detect == Detect(Fetched([name]), map[], 0, true, 0, false)
    requires c.ignored == [] || (c.ignored == [name] && !HidesItself(name, matches))
    requires !c.autoSync
    ensures
      var found := Run(c, [detect], matches);
      Orderly(found) && name in found.pendingAdd && found.ignored == c.ignored
  {
    NormalizeNormal([name]);
    assert IsIgnored(c.ignored, name, matches) == (c.ignored != [] && Ignores(name, name, matches));
    assert [detect][..0] == [];
    assert Run(c, [detect], matches) == AfterDetect(c, detect, matches);
    assert name in FoundAdd(c, [name], map[], matches);
    DetectOrderly(c, detect, matches);
  }

  // ----- Convergence -----

  ghost predicate NothingToFind(c: Channel, names: seq<string>, mapping: Mapping, matches: Matcher) {
    FoundAdd(c, names, mapping, matches) == [] && FoundRemove(c, names, mapping) == []
  }

  /** Adding a name takes it off the ignore list; if it was there as a regular expression, that may uncover others. */
  predicate Uncovers(c: Channel, add: seq<string>, names: seq<string>, mapping: Mapping, matches: Matcher) {
    exists n | n in Normalize(names) ::
      && n !in Models(c.models) && n !in mapping.Values && IsIgnored(c.ignored, n, matches)
      && !CoveredWithout(c, add, n, matches)
  }

  predicate CoveredWithout(c: Channel, add: seq<string>, n: string, matches: Matcher) {
    exists entry | entry in Normalize(c.ignored) :: entry !in add && Ignores(entry, n, matches)
  }

  /** Exactly when a detection, applying all that is then pending, and detecting again against the same upstream finds
      nothing: no name found held a comma, and nothing was uncovered. Automatic sync leaves the ignore list alone. */
  lemma RunConvergesExactly(c: Channel, detect: Event, apply: Event, matches: Matcher)
    requires detect.Detect? && detect.fetch.Fetched? && !Throttled(c, detect)
    requires
      var found := AfterDetect(c, detect, matches);
      apply.Apply? && apply.add == found.pendingAdd && apply.ignore == [] && apply.remove == found.pendingRemove
    ensures
      var names, mapping := detect.fetch.names, detect.mapping;
      var add := FoundAdd(c, names, mapping, matches);
      NothingToFind(Run(c, [detect, apply], matches), names, mapping, matches) <==>
      CommaFree(add) && (AutoApplies(c, detect, matches) || !Uncovers(c, add, names, mapping, matches))
  {
    TwoSteps(c, detect, apply, matches);
    ConvergesExactly(c, detect, apply, matches);
  }

  lemma TwoSteps(c: Channel, first: Event, second: Event, matches: Matcher)
    ensures Run(c, [first, second], matches) == Step(Step(c, first, matches), second, matches)
  {
    assert [first, second][..1] == [first] && [first][..0] == [];
    assert Run(c, [first], matches) == Step(c, first, matches);
  }

  lemma ConvergesExactly(c: Channel, detect: Event, apply: Event, matches: Matcher)
    requires detect.Detect? && detect.fetch.Fetched? && !Throttled(c, detect)
    requires
      var found := AfterDetect(c, detect, matches);
      apply.Apply? && apply.add == found.pendingAdd && apply.ignore == [] && apply.remove == found.pendingRemove
    ensures
      var names, mapping := detect.fetch.names, detect.mapping;
      var add := FoundAdd(c, names, mapping, matches);
      NothingToFind(AfterApply(AfterDetect(c, detect, matches), apply), names, mapping, matches) <==>
      CommaFree(add) && (AutoApplies(c, detect, matches) || !Uncovers(c, add, names, mapping, matches))
  {
    var names, mapping := detect.fetch.names, detect.mapping;
    var add := FoundAdd(c, names, mapping, matches);
    var applied := AfterApply(AfterDetect(c, detect, matches), apply);
    AppliedAll(c, detect, apply, matches);
    if !CommaFree(add) {
      CommaComesBack(c, applied, names, mapping, matches);
    } else {
      ModelsAfterAll(c, detect, apply, matches);
      SettledRemoves(c, applied, names, mapping, matches);
      SettledAdds(c, applied, if AutoApplies(c, detect, matches) then [] else add, names, mapping, matches);
    }
  }

  /** Everything pending is selected; the ignore list loses what was added by hand. */
  lemma AppliedAll(c: Channel, detect: Event, apply: Event, matches: Matcher)
    requires detect.Detect? && detect.fetch.Fetched? && !Throttled(c, detect)
    requires
      var found := AfterDetect(c, detect, matches);
      apply.Apply? && apply.add == found.pendingAdd && apply.ignore == [] && apply.remove == found.pendingRemove
    ensures
      var found := AfterDetect(c, detect, matches);
      var applied := AfterApply(found, apply);
      && Orderly(found)
      && (forall n :: n in Added(found, apply) <==> n in found.pendingAdd)
      && (forall n :: n in Removed(found, apply) <==> n in found.pendingRemove)
      && (forall n :: n in Normalize(applied.ignored) <==> n in Normalize(c.ignored) && n !in found.pendingAdd)
  {
    var found := AfterDetect(c, detect, matches);
    DetectOrderly(c, detect, matches);
    NormalizeNormal(found.pendingAdd);
    NormalizeNormal(found.pendingRemove);
    Selections(found, apply);
    ApplyLists(found, apply);
  }

  lemma ModelsAfterAll(c: Channel, detect: Event, apply: Event, matches: Matcher)
    requires detect.Detect? && detect.fetch.Fetched? && !Throttled(c, detect)
    requires
      var found := AfterDetect(c, detect, matches);
      apply.Apply? && apply.add == found.pendingAdd && apply.ignore == [] && apply.remove == found.pendingRemove
    requires CommaFree(FoundAdd(c, detect.fetch.names, detect.mapping, matches))
    ensures
      var add, remove := FoundAdd(c, detect.fetch.names, detect.mapping, matches),
                         FoundRemove(c, detect.fetch.names, detect.mapping);
      var applied := AfterApply(AfterDetect(c, detect, matches), apply);
      forall n :: n in Models(applied.models) <==> n in add || (n in Models(c.models) && n !in remove)
  {
    var found := AfterDetect(c, detect, matches);
    AppliedAll(c, detect, apply, matches);
    DetectOrderly(c, detect, matches);
    NextMembers(found, apply);
    ApplyModels(found, apply);
  }

  lemma CommaComesBack(c: Channel, applied: Channel, names: seq<string>, mapping: Mapping, matches: Matcher)
    requires !CommaFree(FoundAdd(c, names, mapping, matches))
    requires forall n | n in Normalize(applied.ignored) :: n in Normalize(c.ignored)
    ensures FoundAdd(applied, names, mapping, matches) != []
  {
    ModelsCommaFree(applied.models);
    var n :| n in FoundAdd(c, names, mapping, matches) && ',' in n;
    assert n in FoundAdd(applied, names, mapping, matches);
  }

  lemma SettledRemoves(c: Channel, applied: Channel, names: seq<string>, mapping: Mapping, matches: Matcher)
    requires
      var add, remove := FoundAdd(c, names, mapping, matches), FoundRemove(c, names, mapping);
      forall n :: n in Models(applied.models) <==> n in add || (n in Models(c.models) && n !in remove)
    ensures FoundRemove(applied, names, mapping) == []
  {
    forall n ensures n !in FoundRemove(applied, names, mapping) {
      assert n in FoundAdd(c, names, mapping, matches) ==> n in Normalize(names);
    }
    Empty(FoundRemove(applied, names, mapping));
  }

  lemma SettledAdds(c: Channel, applied: Channel, gone: seq<string>, names: seq<string>, mapping: Mapping,
                    matches: Matcher)
    requires
      var add, remove := FoundAdd(c, names, mapping, matches), FoundRemove(c, names, mapping);
      && (forall n :: n in Models(applied.models) <==> n in add || (n in Models(c.models) && n !in remove))
      && (gone == [] || gone == add)
    requires forall n :: n in Normalize(applied.ignored) <==> n in Normalize(c.ignored) && n !in gone
    ensures FoundAdd(applied, names, mapping, matches) == [] <==>
      gone == [] || !Uncovers(c, gone, names, mapping, matches)
  {
    var again := FoundAdd(applied, names, mapping, matches);
    forall n | n in Normalize(names)
      ensures n in again <==>
        && n !in Models(c.models) && n !in mapping.Values && IsIgnored(c.ignored, n, matches)
        && !CoveredWithout(c, gone, n, matches)
    {
      assert IsIgnored(applied.ignored, n, matches) == CoveredWithout(c, gone, n, matches);
    }
    forall n | n in Normalize(names) && gone == [] ensures n !in again {
      assert IsIgnored(c.ignored, n, matches) == CoveredWithout(c, gone, n, matches);
    }
    Empty(again);
    if again != [] {
      assert again[0] in again && again[0] in Normalize(names);
    }
  }

  // ----- Dismissed names -----

  ghost predicate DismissedIn(c: Channel, name: string) {
    name in Normalize(c.ignored) && name !in c.pendingAdd
  }

  ghost predicate AlwaysDismissed(name: string, matches: Matcher) {
    forall c, events | Orderly(c) && DismissedIn(c, name) :: DismissedIn(Run(c, events, matches), name)
  }

  /** Once dismissed, a name stays on the ignore list and never becomes pending again, over every run from every
      orderly channel, if and only if it hides itself. */
  lemma DismissedForever(name: string, matches: Matcher)
    requires IsName(name)
    ensures AlwaysDismissed(name, matches) <==> HidesItself(name, matches)
  {
    if HidesItself(name, matches) {
      forall c, events | Orderly(c) && DismissedIn(c, name) ensures DismissedIn(Run(c, events, matches), name) {
        StaysDismissed(c, events, name, matches);
      }
    } else {
      var c, events := ComesBack(name, matches);
      assert !DismissedIn(Run(c, events, matches), name);
    }
  }

  lemma ComesBack(name: string, matches: Matcher) returns (c: Channel, events: seq<Event>)
    requires IsName(name) && !HidesItself(name, matches)
    ensures Orderly(c) && DismissedIn(c, name) && name in Run(c, events, matches).pendingAdd
  {
    c := Channel("", [name], [], [], 0, false);
    events := [Detect(Fetched([name]), map[], 0, true, 0, false)];
    NormalizeNormal([name]);
    OneDetected(c, events[0], name, matches);
  }

  lemma {:induction false} StaysDismissed(c: Channel, events: seq<Event>, name: string, matches: Matcher)
    requires Orderly(c) && DismissedIn(c, name) && HidesItself(name, matches)
    ensures Orderly(Run(c, events, matches)) && DismissedIn(Run(c, events, matches), name)
  {
    if events != [] {
      var past, e := events[..|events| - 1], events[|events| - 1];
      StaysDismissed(c, past, name, matches);
      var before := Run(c, past, matches);
      if e.Apply? {
        ApplyOrderly(before, e);
        Selections(before, e);
        ApplyLists(before, e);
      } else if !Throttled(before, e) && e.fetch.Fetched? {
        DetectOrderly(before, e, matches);
        assert Ignores(name, name, matches);
      }
    }
  }
}
