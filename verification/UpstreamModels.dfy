/** Detecting how a channel's model list differs from its upstream, and applying the detected changes. */
module UpstreamModels {
  import opened Text
  import opened NameLists
  import opened Sequences

  /** Whether the regular expression (first argument) compiles and matches the name (second). */
  type Matcher = (string, string) -> bool
  type Mapping = map<string, string>

  const REGEX_PREFIX := "regex:"

  // ----- Detection -----

  predicate Ignores(entry: string, name: string, matches: Matcher) {
    if REGEX_PREFIX <= entry then matches(TrimSpace(entry[|REGEX_PREFIX|..]), name) else entry == name
  }

  predicate MatchesAny(entries: seq<string>, name: string, matches: Matcher) {
    exists entry | entry in entries :: Ignores(entry, name, matches)
  }

  predicate IsIgnored(ignored: seq<string>, name: string, matches: Matcher) {
    MatchesAny(Normalize(ignored), name, matches)
  }

  function Unmatched(names: seq<string>, entries: seq<string>, matches: Matcher): set<string> {
    set n | n in names && !MatchesAny(entries, n, matches)
  }

  function PendingAdd(local: seq<string>, upstream: seq<string>, ignored: seq<string>, mapping: Mapping,
                      matches: Matcher): seq<string>
  {
    var up := Normalize(upstream);
    Keep(up, Unmatched(up, Normalize(ignored), matches) - (Elems(Normalize(local)) + mapping.Values))
  }

  function PendingRemove(local: seq<string>, upstream: seq<string>, mapping: Mapping): seq<string> {
    var here := Normalize(local);
    Keep(here, Elems(here) - Elems(Normalize(upstream)) - mapping.Keys)
  }

  /** An entry of the ignore list that covers the name: the name itself, or a regular expression that matches it. */
  ghost predicate CoveredBy(entry: string, name: string, matches: Matcher) {
    || (!("regex:" <= entry) && entry == name)
    || exists pattern :: entry == "regex:" + pattern && matches(TrimSpace(pattern), name)
  }

  lemma IgnoresMeans(entry: string, name: string, matches: Matcher)
    ensures Ignores(entry, name, matches) <==> CoveredBy(entry, name, matches)
  {
    if "regex:" <= entry {
      assert entry == "regex:" + entry[6..];
      forall pattern | entry == "regex:" + pattern ensures pattern == entry[6..] {
      }
    } else {
      forall pattern ensures entry != "regex:" + pattern {
        assert "regex:" <= "regex:" + pattern;
      }
    }
  }

  /** Pending additions are the upstream names that are not local, no target of a redirect and not ignored; pending
      removals are the local names that are not upstream and no source of a redirect. */
  lemma PendingMembers(local: seq<string>, upstream: seq<string>, ignored: seq<string>, mapping: Mapping,
                       matches: Matcher, n: string)
    ensures n in PendingAdd(local, upstream, ignored, mapping, matches) <==>
      && n in Normalize(upstream) && n !in Normalize(local)
      && (forall source | source in mapping :: mapping[source] != n)
      && (forall entry | entry in Normalize(ignored) :: !CoveredBy(entry, n, matches))
    ensures n in PendingRemove(local, upstream, mapping) <==>
      n in Normalize(local) && n !in Normalize(upstream) && n !in mapping
  {
    forall entry | entry in Normalize(ignored) ensures Ignores(entry, n, matches) == CoveredBy(entry, n, matches) {
      IgnoresMeans(entry, n, matches);
    }
    assert n in mapping.Values <==> exists source | source in mapping :: mapping[source] == n;
  }

  method CollectPending(local: seq<string>, upstream: seq<string>, ignored: seq<string>, mapping: Mapping,
                        matches: Matcher) returns (add: seq<string>, remove: seq<string>)
    ensures add == PendingAdd(local, upstream, ignored, mapping, matches)
    ensures remove == PendingRemove(local, upstream, mapping)
  {
    var here, up := Normalize(local), Normalize(upstream);
    var localSet := ToSet(here);
    var upstreamSet := ToSet(up);
    add := Uncovered(up, localSet + mapping.Values, Normalize(ignored), matches);
    remove := Keep(here, localSet - upstreamSet - mapping.Keys);
    NormalizeNormal(add);
    NormalizeNormal(remove);
    add, remove := Normalize(add), Normalize(remove);
  }

  method Uncovered(up: seq<string>, covered: set<string>, entries: seq<string>, matches: Matcher)
    returns (add: seq<string>)
    requires Normal(up)
    ensures add == Keep(up, Unmatched(up, entries, matches) - covered)
  {
    var kept := {};
    for i := 0 to |up|
      invariant kept == Unmatched(up[..i], entries, matches) - covered
    {
      assert up[..i + 1] == up[..i] + [up[i]];
      var hit := ContainsMatch(entries, up[i], matches);
      if up[i] !in covered && !hit {
        kept := kept + {up[i]};
      }
    }
    assert up[..|up|] == up;
    add := Keep(up, kept);
  }

  method ContainsMatch(entries: seq<string>, name: string, matches: Matcher) returns (hit: bool)
    ensures hit == MatchesAny(entries, name, matches)
  {
    for i := 0 to |entries|
      invariant forall j | 0 <= j < i :: !Ignores(entries[j], name, matches)
    {
      if Ignores(entries[i], name, matches) {
        return true;
      }
    }
    return false;
  }

  /** Add wins when the same model appears in both selected lists. */
  function ApplySelected(origin: seq<string>, add: seq<string>, remove: seq<string>): seq<string> {
    var adding := Normalize(add);
    var removing := Subtract(Normalize(remove), adding);
    Subtract(Merge(origin, adding), removing)
  }

  lemma ApplySelectedMembers(origin: seq<string>, add: seq<string>, remove: seq<string>)
    ensures Normal(ApplySelected(origin, add, remove))
    ensures forall x :: x in ApplySelected(origin, add, remove) <==>
      x in Normalize(add) || (x in Normalize(origin) && x !in Normalize(remove))
  {
    var adding := Normalize(add);
    var removing := Subtract(Normalize(remove), adding);
    NormalizeNormal(adding);
    NormalizeNormal(Normalize(remove));
    NormalizeNormal(removing);
    NormalizeNormal(Merge(origin, adding));
    MergeMembers(origin, adding);
  }

  /** Applying everything that was detected leaves nothing to detect, for all inputs. */
  lemma Converges(local: seq<string>, upstream: seq<string>, ignored: seq<string>, mapping: Mapping, matches: Matcher)
    ensures
      var add := PendingAdd(local, upstream, ignored, mapping, matches);
      var next := ApplySelected(local, add, PendingRemove(local, upstream, mapping));
      && PendingAdd(next, upstream, ignored, mapping, matches) == []
      && PendingRemove(next, upstream, mapping) == []
  {
    var add := PendingAdd(local, upstream, ignored, mapping, matches);
    var remove := PendingRemove(local, upstream, mapping);
    var next := ApplySelected(local, add, remove);
    ApplySelectedMembers(local, add, remove);
    NormalizeNormal(add);
    NormalizeNormal(remove);
    NormalizeNormal(next);
    Empty(PendingAdd(next, upstream, ignored, mapping, matches));
    Empty(PendingRemove(next, upstream, mapping));
  }

  /** As an entry of the ignore list the name covers itself: it does not read as a regular expression, or reads as
      one that matches it. */
  predicate HidesItself(name: string, matches: Matcher) {
    !(REGEX_PREFIX <= name) || matches(TrimSpace(name[|REGEX_PREFIX|..]), name)
  }

  /** A dismissed name stays hidden from every detection if and only if it hides itself. */
  lemma DismissedStaysHidden(name: string, matches: Matcher)
    requires IsName(name)
    ensures
      (forall local, upstream, ignored, mapping | name in Normalize(ignored) ::
         name !in PendingAdd(local, upstream, ignored, mapping, matches))
      <==> HidesItself(name, matches)
  {
    if HidesItself(name, matches) {
      forall local, upstream, ignored, mapping | name in Normalize(ignored)
        ensures name !in PendingAdd(local, upstream, ignored, mapping, matches)
      {
        assert Ignores(name, name, matches);
      }
    } else {
      NormalizeNormal([name]);
      assert IsIgnored([name], name, matches) == Ignores(name, name, matches);
      assert name in PendingAdd([], [name], [name], map[], matches);
    }
  }
}
