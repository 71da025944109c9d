/** Managing the keys of a multi-key channel: statuses, times and reasons are kept by key index. */
module MultiKey {
  import opened Options
  import opened Text

  const ENABLED := 1
  const MANUALLY_DISABLED := 2
  const AUTO_DISABLED := 3

  /** `key` is the text of the key list; the maps are indexed by position in it. `status` is the status of each key
      and `channel` that of the channel as a whole. */
  datatype Info = Info(key: string, size: int, status: map<int, int>, time: map<int, int>, reason: map<int, string>,
                       channel: int)

  datatype KeyStatus = KeyStatus(key: string, status: int, time: int, reason: string)

  // ----- Reading the key list -----

  /** The elements of a JSON array as they stand in the text, or nothing for other text. */
  type ArrayReader = string -> Opt<seq<string>>

  /** What the text holds when it reads as a JSON array. */
  function ArrayIn(text: string, read: ArrayReader): Opt<seq<string>> {
    var trimmed := TrimSpace(text);
    if trimmed != "" && trimmed[0] == '[' then read(trimmed) else None
  }

  /** The keys of a text: the elements of an array, or else its lines. */
  function KeysIn(text: string, read: ArrayReader): seq<string> {
    match ArrayIn(text, read)
    case Some(keys) => keys
    case None => Fields(text, '\n')
  }

  /** How many keys saving counts: an empty array is counted by lines. */
  function CountIn(text: string, read: ArrayReader): nat {
    var keys := KeysIn(text, read);
    if keys == [] then |Fields(text, '\n')| else |keys|
  }

  /** White space around an array does not matter; what does not read as one is read line by line. */
  lemma PaddedKeys(head: string, text: string, tail: string, read: ArrayReader)
    requires (forall c | c in head :: IsSpace(c)) && (forall c | c in tail :: IsSpace(c))
    requires text != "" && Bare(text, IsSpace)
    ensures
      var keys := KeysIn(head + text + tail, read);
      if text[0] == '[' && read(text).Some? then keys == read(text).value
      else keys == Fields(head + text + tail, '\n')
  {
    TrimExactly(head, text, tail, IsSpace);
  }

  function Keys(s: Info, read: ArrayReader): seq<string> {
    KeysIn(s.key, read)
  }

  function Status(s: Info, i: int): int {
    if i in s.status then s.status[i] else ENABLED
  }

  /** What is recorded for a key, whether or not it shows. */
  function Recorded<V>(m: map<int, V>, i: int, nothing: V): V {
    if i in m then m[i] else nothing
  }

  function Row(s: Info, read: ArrayReader, i: int): KeyStatus
    requires 0 <= i < |Keys(s, read)|
  {
    var status := Status(s, i);
    KeyStatus(Keys(s, read)[i], status, if status != ENABLED then Recorded(s.time, i, 0) else 0,
              if status != ENABLED then Recorded(s.reason, i, "") else "")
  }

  /** What the status query shows, one row per key. */
  function View(s: Info, read: ArrayReader): (r: seq<KeyStatus>)
    ensures |r| == |Keys(s, read)| && forall i | 0 <= i < |r| :: r[i] == Row(s, read, i)
  {
    seq(|Keys(s, read)|, i requires 0 <= i < |Keys(s, read)| => Row(s, read, i))
  }

  function Below(status: map<int, int>, size: int): map<int, int> {
    map i | i in status && i < size :: status[i]
  }

  /** Saving a channel: an empty key leaves the stored one alone, the size is recounted, and statuses past it go. */
  function Saved(stored: Info, s: Info, read: ArrayReader): Info {
    var key := if s.key != "" then s.key else stored.key;
    var size := CountIn(key, read);
    s.(key := key, size := size, status := Below(s.status, size))
  }

  // ----- Deleting keys and renumbering the rest -----

  /** The positions below n that are not in `gone`, in order. */
  function Kept(n: nat, gone: set<int>): (r: seq<int>)
    ensures forall j | 0 <= j < |r| :: 0 <= r[j] < n && r[j] !in gone
    ensures |r| <= n
  {
    if n == 0 then [] else Kept(n - 1, gone) + if n - 1 in gone then [] else [n - 1]
  }

  function Pick<V>(xs: seq<V>, kept: seq<int>): (r: seq<V>)
    requires forall j | 0 <= j < |kept| :: 0 <= kept[j] < |xs|
    ensures |r| == |kept| && forall j | 0 <= j < |r| :: r[j] == xs[kept[j]]
  {
    seq(|kept|, j requires 0 <= j < |kept| => xs[kept[j]])
  }

  /** Carries the entry of key i over to position j, when there is one. */
  function Carry<V>(m: map<int, V>, from: map<int, V>, i: int, j: int): map<int, V> {
    if i in from then m[j := from[i]] else m
  }

  /** The lists and maps a deletion builds. */
  datatype Copy = Copy(keys: seq<string>, status: map<int, int>, time: map<int, int>, reason: map<int, string>)

  /** Appending key i to the copy, with what is known about it. Deleting one key carries every time and reason
      over; deleting the auto-disabled ones only those that show. */
  function CopyKey(c: Copy, s: Info, keys: seq<string>, i: int, onlyVisible: bool): Copy
    requires 0 <= i < |keys|
  {
    var j, visible := |c.keys|, Status(s, i) != ENABLED;
    Copy(c.keys + [keys[i]],
         if visible then Carry(c.status, s.status, i, j) else c.status,
         if visible || !onlyVisible then Carry(c.time, s.time, i, j) else c.time,
         if visible || !onlyVisible then Carry(c.reason, s.reason, i, j) else c.reason)
  }

  /** What has been copied once the first n keys have been looked at. */
  function CopiedBelow(s: Info, keys: seq<string>, gone: set<int>, onlyVisible: bool, n: nat): Copy
    requires n <= |keys|
  {
    if n == 0 then Copy([], map[], map[], map[])
    else
      var copy := CopiedBelow(s, keys, gone, onlyVisible, n - 1);
      if n - 1 in gone then copy else CopyKey(copy, s, keys, n - 1, onlyVisible)
  }

  function Rebuilt(s: Info, c: Copy): Info {
    Info(Join(c.keys, '\n'), |c.keys|, c.status, c.time, c.reason, s.channel)
  }

  function Without(s: Info, read: ArrayReader, gone: set<int>, onlyVisible: bool): Info {
    var keys := Keys(s, read);
    Rebuilt(s, CopiedBelow(s, keys, gone, onlyVisible, |keys|))
  }

  function AutoDisabled(s: Info, read: ArrayReader): set<int> {
    set i | 0 <= i < |Keys(s, read)| && Status(s, i) == AUTO_DISABLED
  }

  // ----- The actions -----

  /** The key index of a request may be missing. */
  datatype Index = Unspecified | At(value: int)

  datatype Action =
    | DisableKey(index: Index)
    | EnableKey(index: Index)
    | EnableAll
    | DisableAll
    | DeleteKey(index: Index)
    | DeleteAutoDisabled
    | Report(usingKey: string, status: int, reason: string, now: int)

  predicate Deleting(a: Action) {
    a.DeleteKey? || a.DeleteAutoDisabled?
  }

  predicate InRange(s: Info, index: Index) {
    index.At? && 0 <= index.value < s.size
  }

  function Enabled(s: Info): set<int> {
    set i | 0 <= i < s.size && Status(s, i) == ENABLED
  }

  function WithDisabled(status: map<int, int>, indices: set<int>): map<int, int> {
    status + map i | i in indices :: MANUALLY_DISABLED
  }

  function FirstIndex(keys: seq<string>, key: string): (i: nat)
    ensures i <= |keys| && key !in keys[..i]
    ensures i < |keys| ==> keys[i] == key
  {
    if keys == [] || keys[0] == key then 0
    else
      var i := FirstIndex(keys[1..], key);
      assert keys[..i + 1] == [keys[0]] + keys[1..][..i];
      i + 1
  }

  predicate SomeEnabled(s: Info, read: ArrayReader) {
    exists i | 0 <= i < |Keys(s, read)| :: Status(s, i) == ENABLED
  }

  /** The record of a key that failed, or works again. */
  function Marked(s: Info, i: int, a: Action): Info
    requires a.Report?
  {
    if a.status == ENABLED then s.(status := s.status - {i})
    else s.(status := s.status[i := a.status], time := s.time[i := a.now], reason := s.reason[i := a.reason])
  }

  /** The channel follows its keys: auto-disabled with the last of them, enabled again with any of them. */
  function Followed(s: Info, read: ArrayReader, a: Action): Info
    requires a.Report?
  {
    if !SomeEnabled(s, read) then s.(channel := AUTO_DISABLED)
    else if a.status == ENABLED then s.(channel := ENABLED)
    else s
  }

  /** A report of the status the channel already has is dropped. So is one about an unknown key, unless it names no key
      or there are none: then it is about the channel. */
  function Reported(s: Info, read: ArrayReader, a: Action): Info
    requires a.Report?
  {
    var keys := Keys(s, read);
    var i := FirstIndex(keys, a.usingKey);
    if a.status == s.channel then s
    else if i < |keys| then Followed(Marked(s, i, a), read, a)
    else if keys == [] || a.usingKey == "" then s.(channel := a.status)
    else s
  }

  function Gone(s: Info, read: ArrayReader, a: Action): set<int>
    requires Deleting(a)
  {
    if a.DeleteAutoDisabled? then AutoDisabled(s, read) else if a.index.At? then {a.index.value} else {}
  }

  /** Whether the action is accepted. */
  predicate Accepts(s: Info, read: ArrayReader, a: Action) {
    match a
    case DisableKey(i) => InRange(s, i)
    case EnableKey(i) => InRange(s, i)
    case EnableAll => true
    case DisableAll => Enabled(s) != {}
    case DeleteKey(i) => InRange(s, i) && Kept(|Keys(s, read)|, {i.value}) != []
    case DeleteAutoDisabled => AutoDisabled(s, read) != {}
    case Report(_, _, _, _) => true
  }

  function Step(s: Info, read: ArrayReader, a: Action): Info {
    if !Accepts(s, read, a) then s
    else match a
      case DisableKey(i) => Saved(s, s.(status := s.status[i.value := MANUALLY_DISABLED]), read)
      case EnableKey(i) =>
        Saved(s, s.(status := s.status - {i.value}, time := s.time - {i.value}, reason := s.reason - {i.value}), read)
      case EnableAll => Saved(s, s.(status := map[], time := map[], reason := map[]), read)
      case DisableAll => Saved(s, s.(status := WithDisabled(s.status, Enabled(s))), read)
      case DeleteKey(i) => Saved(s, Without(s, read, {i.value}, false), read)
      case DeleteAutoDisabled => Saved(s, Without(s, read, AutoDisabled(s, read), true), read)
      case Report(_, _, _, _) => Reported(s, read, a)
  }

  // ----- The handlers, as they change the stored channel -----

  /** The copying loop of a single deletion. */
  method WithoutKey(s: Info, keys: seq<string>, index: int) returns (copy: Copy)
    ensures copy == CopiedBelow(s, keys, {index}, false, |keys|)
  {
    copy := Copy([], map[], map[], map[]);
    for i := 0 to |keys|
      invariant copy == CopiedBelow(s, keys, {index}, false, i)
    {
      if i != index {
        copy := CopyKey(copy, s, keys, i, false);
      }
    }
  }

  /** The copying loop of deleting the auto-disabled keys. */
  method WithoutAutoDisabled(s: Info, keys: seq<string>, ghost gone: set<int>) returns (copy: Copy, count: int)
    requires forall i :: i in gone <==> 0 <= i < |keys| && Status(s, i) == AUTO_DISABLED
    ensures copy == CopiedBelow(s, keys, gone, true, |keys|) && count == |gone|
  {
    copy, count := Copy([], map[], map[], map[]), 0;
    ghost var found: set<int> := {};
    for i := 0 to |keys|
      invariant copy == CopiedBelow(s, keys, gone, true, i)
      invariant found == (set j | j in gone && j < i) && count == |found|
    {
      if Status(s, i) == AUTO_DISABLED {
        count := count + 1;
        found := found + {i};
      } else {
        copy := CopyKey(copy, s, keys, i, true);
      }
    }
    assert found == gone;
  }

  function EnabledBelow(s: Info, n: int): set<int> {
    set i | 0 <= i < n && Status(s, i) == ENABLED
  }

  lemma WithDisabledNext(status: map<int, int>, changed: set<int>, i: int)
    ensures WithDisabled(status, changed + {i}) == WithDisabled(status, changed)[i := MANUALLY_DISABLED]
  {
  }

  lemma OthersKept(status: map<int, int>, indices: set<int>, i: int)
    requires i !in indices
    ensures
      var status' := WithDisabled(status, indices);
      (i in status' <==> i in status) && (i in status ==> status'[i] == status[i])
  {
  }

  lemma EnabledNext(s: Info, n: nat)
    ensures
      var below, below' := EnabledBelow(s, n), EnabledBelow(s, n + 1);
      if Status(s, n) == ENABLED then below' == below + {n} && |below'| == |below| + 1 else below' == below
  {
    var below, below' := EnabledBelow(s, n), EnabledBelow(s, n + 1);
    assert below' == if Status(s, n) == ENABLED then below + {n} else below;
  }

  method AllDisabled(s: Info) returns (status: map<int, int>, count: int)
    ensures status == WithDisabled(s.status, Enabled(s))
    ensures count == |Enabled(s)|
  {
    var i: nat := 0;
    status, count := s.status, 0;
    assert WithDisabled(s.status, {}) == s.status;
    while i < s.size
      invariant i == 0 || i <= s.size
      invariant count == |EnabledBelow(s, i)| && status == WithDisabled(s.status, EnabledBelow(s, i))
    {
      EnabledNext(s, i);
      WithDisabledNext(s.status, EnabledBelow(s, i), i);
      OthersKept(s.status, EnabledBelow(s, i), i);
      var current := if i in status then status[i] else ENABLED;
      if current == ENABLED {
        status := status[i := MANUALLY_DISABLED];
        count := count + 1;
      }
      i := i + 1;
    }
    assert EnabledBelow(s, i) == Enabled(s);
  }

  method HasEnabled(s: Info, read: ArrayReader) returns (some: bool)
    ensures some == SomeEnabled(s, read)
  {
    for i := 0 to |Keys(s, read)|
      invariant forall j | 0 <= j < i :: Status(s, j) != ENABLED
    {
      if Status(s, i) == ENABLED {
        return true;
      }
    }
    return false;
  }

  method FindKey(keys: seq<string>, key: string) returns (i: nat)
    ensures i == FirstIndex(keys, key)
  {
    i := 0;
    while i < |keys| && keys[i] != key
      invariant 0 <= i <= |keys| && key !in keys[..i]
    {
      i := i + 1;
    }
  }

  class MultiKeyChannel {
    const read: ArrayReader
    var info: Info

    constructor (info: Info, read: ArrayReader)
      ensures this.info == info && this.read == read
    {
      this.info, this.read := info, read;
    }

    /** Saving deletes the statuses past the recounted size one by one. */
    method Save(s: Info)
      modifies this
      ensures info == Saved(old(info), s, read)
    {
      var key := if s.key != "" then s.key else info.key;
      var keys: seq<string> := [];
      if key != "" {
        var arr := ArrayIn(key, read);
        if arr.Some? {
          keys := arr.value;
        }
        if |keys| == 0 {
          keys := Fields(key, '\n');
        }
      }
      var size := |keys|;
      assert size == CountIn(key, read);
      var status, todo := s.status, s.status.Keys;
      while todo != {}
        invariant todo <= s.status.Keys
        invariant forall i :: i in status <==> i in s.status && (i in todo || i < size)
        invariant forall i | i in status :: status[i] == s.status[i]
        decreases |todo|
      {
        assert (forall i :: i !in todo) ==> todo == {};
        var i :| i in todo;
        if i >= size {
          status := status - {i};
        }
        todo := todo - {i};
      }
      assert forall i :: i in status <==> i in Below(s.status, size);
      assert status == Below(s.status, size);
      info := s.(key := key, size := size, status := status);
    }

    method Disable(index: Index) returns (ok: bool)
      modifies this
      ensures ok == Accepts(old(info), read, DisableKey(index)) && info == Step(old(info), read, DisableKey(index))
    {
      if index.Unspecified? || index.value < 0 || index.value >= info.size {
        return false;
      }
      Save(info.(status := info.status[index.value := MANUALLY_DISABLED]));
      return true;
    }

    method Enable(index: Index) returns (ok: bool)
      modifies this
      ensures ok == Accepts(old(info), read, EnableKey(index)) && info == Step(old(info), read, EnableKey(index))
    {
      if index.Unspecified? || index.value < 0 || index.value >= info.size {
        return false;
      }
      var gone := {index.value};
      Save(info.(status := info.status - gone, time := info.time - gone, reason := info.reason - gone));
      return true;
    }

    method EnableEvery() returns (count: int)
      modifies this
      ensures count == |old(info).status| && info == Step(old(info), read, EnableAll)
    {
      count := |info.status|;
      Save(info.(status := map[], time := map[], reason := map[]));
    }

    method DisableEvery() returns (count: int)
      modifies this
      ensures count == |Enabled(old(info))|
      ensures (count != 0) == Accepts(old(info), read, DisableAll) && info == Step(old(info), read, DisableAll)
    {
      var status;
      status, count := AllDisabled(info);
      if count == 0 {
        assert Enabled(info) == {};
        return;
      }
      Save(info.(status := status));
    }

    /** The emptiness test of the source is on the copy; it agrees with the positions kept. */
    method Delete(index: Index) returns (ok: bool)
      modifies this
      ensures ok == Accepts(old(info), read, DeleteKey(index)) && info == Step(old(info), read, DeleteKey(index))
    {
      if index.Unspecified? || index.value < 0 || index.value >= info.size {
        return false;
      }
      var keys := Keys(info, read);
      var copy := WithoutKey(info, keys, index.value);
      CopyFollows(info, keys, {index.value}, false, |keys|);
      if |copy.keys| == 0 {
        return false;
      }
      Save(Rebuilt(info, copy));
      return true;
    }

    method DeleteDisabled() returns (count: int)
      modifies this
      ensures count == |AutoDisabled(old(info), read)|
      ensures (count != 0) == Accepts(old(info), read, DeleteAutoDisabled)
      ensures info == Step(old(info), read, DeleteAutoDisabled)
    {
      var copy;
      copy, count := WithoutAutoDisabled(info, Keys(info, read), AutoDisabled(info, read));
      if count == 0 {
        return;
      }
      Save(Rebuilt(info, copy));
    }

    method ReportKey(usingKey: string, status: int, reason: string, now: int)
      modifies this
      ensures info == Step(old(info), read, Report(usingKey, status, reason, now))
    {
      if info.channel == status {
        return;
      }
      var keys := Keys(info, read);
      if |keys| == 0 {
        info := info.(channel := status);
        return;
      }
      var i := FindKey(keys, usingKey);
      if i == |keys| {
        if usingKey == "" {
          info := info.(channel := status);
        }
        return;
      }
      if status == ENABLED {
        info := info.(status := info.status - {i});
      } else {
        info := info.(status := info.status[i := status]);
        info := info.(reason := info.reason[i := reason], time := info.time[i := now]);
      }
      var some := HasEnabled(info, read);
      if !some {
        info := info.(channel := AUTO_DISABLED);
      } else if status == ENABLED {
        info := info.(channel := ENABLED);
      }
    }
  }

  // ----- What a copy holds, position by position -----

  /** Position j of the new map holds what the kept key behind it had, if that is carried over. */
  ghost predicate Follows<V>(m': map<int, V>, m: map<int, V>, s: Info, kept: seq<int>, onlyVisible: bool) {
    && (forall j :: j in m' <==>
          0 <= j < |kept| && kept[j] in m && (onlyVisible ==> Status(s, kept[j]) != ENABLED))
    && (forall j | j in m' :: m'[j] == m[kept[j]])
  }

  lemma FollowsNext<V>(m': map<int, V>, m: map<int, V>, s: Info, kept: seq<int>, onlyVisible: bool, i: int)
    requires Follows(m', m, s, kept, onlyVisible)
    ensures
      var carried := Status(s, i) != ENABLED || !onlyVisible;
      Follows(if carried then Carry(m', m, i, |kept|) else m', m, s, kept + [i], onlyVisible)
  {
  }

  ghost predicate CopyOf(c: Copy, s: Info, keys: seq<string>, kept: seq<int>, onlyVisible: bool)
    requires forall j | 0 <= j < |kept| :: 0 <= kept[j] < |keys|
  {
    && c.keys == Pick(keys, kept)
    && Follows(c.status, s.status, s, kept, true)
    && Follows(c.time, s.time, s, kept, onlyVisible)
    && Follows(c.reason, s.reason, s, kept, onlyVisible)
  }

  lemma CopyOfNext(c: Copy, s: Info, keys: seq<string>, kept: seq<int>, onlyVisible: bool, i: int)
    requires forall j | 0 <= j < |kept| :: 0 <= kept[j] < |keys|
    requires CopyOf(c, s, keys, kept, onlyVisible) && 0 <= i < |keys|
    ensures CopyOf(CopyKey(c, s, keys, i, onlyVisible), s, keys, kept + [i], onlyVisible)
  {
    FollowsNext(c.status, s.status, s, kept, true, i);
    FollowsNext(c.time, s.time, s, kept, onlyVisible, i);
    FollowsNext(c.reason, s.reason, s, kept, onlyVisible, i);
    assert Pick(keys, kept + [i]) == Pick(keys, kept) + [keys[i]];
  }

  lemma CopySkips(s: Info, keys: seq<string>, gone: set<int>, onlyVisible: bool, n: nat)
    requires n < |keys| && n in gone
    requires CopyOf(CopiedBelow(s, keys, gone, onlyVisible, n), s, keys, Kept(n, gone), onlyVisible)
    ensures CopyOf(CopiedBelow(s, keys, gone, onlyVisible, n + 1), s, keys, Kept(n + 1, gone), onlyVisible)
  {
    assert CopiedBelow(s, keys, gone, onlyVisible, n + 1) == CopiedBelow(s, keys, gone, onlyVisible, n);
    assert Kept(n + 1, gone) == Kept(n, gone);
  }

  lemma CopyTakes(s: Info, keys: seq<string>, gone: set<int>, onlyVisible: bool, n: nat)
    requires n < |keys| && n !in gone
    requires CopyOf(CopiedBelow(s, keys, gone, onlyVisible, n), s, keys, Kept(n, gone), onlyVisible)
    ensures CopyOf(CopiedBelow(s, keys, gone, onlyVisible, n + 1), s, keys, Kept(n + 1, gone), onlyVisible)
  {
    var copy := CopiedBelow(s, keys, gone, onlyVisible, n);
    assert CopiedBelow(s, keys, gone, onlyVisible, n + 1) == CopyKey(copy, s, keys, n, onlyVisible);
    assert Kept(n + 1, gone) == Kept(n, gone) + [n];
    CopyOfNext(copy, s, keys, Kept(n, gone), onlyVisible, n);
  }

  lemma {:induction false} CopyFollows(s: Info, keys: seq<string>, gone: set<int>, onlyVisible: bool, n: nat)
    requires n <= |keys|
    ensures CopyOf(CopiedBelow(s, keys, gone, onlyVisible, n), s, keys, Kept(n, gone), onlyVisible)
  {
    if n > 0 {
      CopyFollows(s, keys, gone, onlyVisible, n - 1);
      if n - 1 in gone {
        CopySkips(s, keys, gone, onlyVisible, n - 1);
      } else {
        CopyTakes(s, keys, gone, onlyVisible, n - 1);
      }
    }
  }

  // ----- The size and the indices over every run -----

  /** The recorded size is what saving counts, and every status belongs to an index below it. */
  ghost predicate Counted(s: Info, read: ArrayReader) {
    s.size == CountIn(s.key, read) && forall i | i in s.status :: 0 <= i < s.size
  }

  /** The recorded size is the number of keys, and every status belongs to one of them. */
  ghost predicate Valid(s: Info, read: ArrayReader) {
    s.size == |Keys(s, read)| && forall i | i in s.status :: 0 <= i < s.size
  }

  /** The two differ on exactly one kind of text: an array without elements. */
  lemma CountedValid(s: Info, read: ArrayReader)
    ensures Counted(s, read) ==> (Valid(s, read) <==> ArrayIn(s.key, read) != Some([]))
    ensures Valid(s, read) && ArrayIn(s.key, read) != Some([]) ==> Counted(s, read)
  {
    assert TrimSpace("") == "";
    if s.key != "" {
      assert Fields(s.key, '\n') != [];
    }
  }

  /** The statuses that are saved have indices of keys or of the old statuses, never negative ones. */
  lemma SavedCounted(stored: Info, s: Info, read: ArrayReader)
    requires forall i | i in s.status :: 0 <= i
    ensures Counted(Saved(stored, s, read), read)
  {
  }

  lemma DeletedCounted(s: Info, read: ArrayReader, gone: set<int>, onlyVisible: bool)
    ensures Counted(Saved(s, Without(s, read, gone, onlyVisible), read), read)
  {
    CopyFollows(s, Keys(s, read), gone, onlyVisible, |Keys(s, read)|);
    SavedCounted(s, Without(s, read, gone, onlyVisible), read);
  }

  lemma StepKeepsCounted(s: Info, read: ArrayReader, a: Action)
    requires Counted(s, read)
    ensures Counted(Step(s, read, a), read)
  {
    if Accepts(s, read, a) {
      match a
      case DisableKey(i) => SavedCounted(s, s.(status := s.status[i.value := MANUALLY_DISABLED]), read);
      case EnableKey(_) =>
      case EnableAll =>
      case DisableAll => SavedCounted(s, s.(status := WithDisabled(s.status, Enabled(s))), read);
      case DeleteKey(i) => DeletedCounted(s, read, {i.value}, false);
      case DeleteAutoDisabled => DeletedCounted(s, read, AutoDisabled(s, read), true);
      case Report(_, _, _, _) => ReportedCounted(s, read, a);
    }
  }

  lemma ReportedCounted(s: Info, read: ArrayReader, a: Action)
    requires Counted(s, read) && a.Report?
    ensures Counted(Reported(s, read, a), read)
  {
    var i := FirstIndex(Keys(s, read), a.usingKey);
    if i < |Keys(s, read)| {
      MarkedCounted(s, read, i, a);
    }
  }

  lemma MarkedCounted(s: Info, read: ArrayReader, i: nat, a: Action)
    requires Counted(s, read) && a.Report? && i < |Keys(s, read)|
    ensures Counted(Marked(s, i, a), read)
  {
  }

  function Run(s: Info, read: ArrayReader, actions: seq<Action>): Info {
    if actions == [] then s
    else Step(Run(s, read, actions[..|actions| - 1]), read, actions[|actions| - 1])
  }

  lemma {:induction false} RunKeepsCounted(s: Info, read: ArrayReader, actions: seq<Action>)
    requires Counted(s, read)
    ensures Counted(Run(s, read, actions), read)
  {
    if actions != [] {
      RunKeepsCounted(s, read, actions[..|actions| - 1]);
      StepKeepsCounted(Run(s, read, actions[..|actions| - 1]), read, actions[|actions| - 1]);
    }
  }

  /** The text of the key list after an action: only a deletion that leaves something rewrites it. */
  function NextText(s: Info, read: ArrayReader, a: Action): string {
    if !Accepts(s, read, a) || !Deleting(a) then s.key
    else
      var text := Join(Remaining(s, read, Gone(s, read, a)), '\n');
      if text == "" then s.key else text
  }

  function Remaining(s: Info, read: ArrayReader, gone: set<int>): seq<string> {
    var keys := Keys(s, read);
    Pick(keys, Kept(|keys|, gone))
  }

  lemma NextTextStored(s: Info, read: ArrayReader, a: Action)
    ensures Step(s, read, a).key == NextText(s, read, a)
  {
    if Accepts(s, read, a) && Deleting(a) {
      CopyFollows(s, Keys(s, read), Gone(s, read, a), a.DeleteAutoDisabled?, |Keys(s, read)|);
    }
  }

  /** After any run, the size and indices are right in the next state too if and only if the next text does not read
      as an array without elements. Only a deletion can make it so. */
  lemma StepValidExactly(s: Info, read: ArrayReader, actions: seq<Action>, a: Action)
    requires Counted(s, read)
    ensures
      var before := Run(s, read, actions);
      && (Valid(Step(before, read, a), read) <==> ArrayIn(NextText(before, read, a), read) != Some([]))
      && (Valid(before, read) && !Deleting(a) ==> Valid(Step(before, read, a), read))
  {
    var before := Run(s, read, actions);
    RunKeepsCounted(s, read, actions);
    StepKeepsCounted(before, read, a);
    NextTextStored(before, read, a);
    CountedValid(before, read);
    CountedValid(Step(before, read, a), read);
  }

  // ----- Deletion keeps every surviving row, exactly when the remaining keys can be stored -----

  /** The remaining keys, written one per line, read back as themselves: some remain, and either the text happens to
      read as an array of just these, or it reads as none, the first and last are not empty and none spans lines. */
  predicate Storable(keys: seq<string>, read: ArrayReader) {
    && keys != []
    && match ArrayIn(Join(keys, '\n'), read)
       case Some(elements) => elements == keys
       case None => Joinable(keys, '\n')
  }

  ghost predicate Deletes(s: Info, read: ArrayReader, gone: set<int>, s': Info) {
    View(s', read) == Pick(View(s, read), Kept(|Keys(s, read)|, gone))
  }

  lemma {:induction false} KeptShorter(n: nat, gone: set<int>, i: int)
    requires 0 <= i < n && i in gone
    ensures |Kept(n, gone)| < n
  {
    if i < n - 1 {
      KeptShorter(n - 1, gone, i);
    }
  }

  lemma StorableReadsBack(keys: seq<string>, read: ArrayReader)
    requires keys != []
    ensures KeysIn(Join(keys, '\n'), read) == keys <==> Storable(keys, read)
    ensures Storable(keys, read) ==> Join(keys, '\n') != ""
  {
    FieldsOfJoin(keys, '\n');
    if Joinable(keys, '\n') {
      JoinEnds(keys, '\n');
    }
  }

  /** When the keys come back as they were picked, so do their rows. */
  lemma RowFollows(s: Info, read: ArrayReader, gone: set<int>, onlyVisible: bool, s': Info, j: nat)
    requires s' == Saved(s, Without(s, read, gone, onlyVisible), read)
    requires Keys(s', read) == Remaining(s, read, gone) && j < |Keys(s', read)|
    ensures Row(s', read, j) == Row(s, read, Kept(|Keys(s, read)|, gone)[j])
  {
    var kept := Kept(|Keys(s, read)|, gone);
    var i := kept[j];
    assert s'.size == |kept|;
    CopyFollows(s, Keys(s, read), gone, onlyVisible, |Keys(s, read)|);
    assert j in s'.status <==> i in s.status && s.status[i] != ENABLED;
    assert Status(s', j) == Status(s, i);
  }

  lemma RowsFollow(s: Info, read: ArrayReader, gone: set<int>, onlyVisible: bool, s': Info)
    requires s' == Saved(s, Without(s, read, gone, onlyVisible), read)
    requires Keys(s', read) == Remaining(s, read, gone)
    ensures Deletes(s, read, gone, s')
  {
    forall j | 0 <= j < |Keys(s', read)|
      ensures View(s', read)[j] == Row(s, read, Kept(|Keys(s, read)|, gone)[j])
    {
      RowFollows(s, read, gone, onlyVisible, s', j);
    }
  }

  /** Conversely, rows that are exactly the surviving ones show exactly the surviving keys. */
  lemma KeysFollow(s: Info, read: ArrayReader, gone: set<int>, s': Info)
    requires Deletes(s, read, gone, s')
    ensures Keys(s', read) == Remaining(s, read, gone)
  {
    var kept := Kept(|Keys(s, read)|, gone);
    assert |Keys(s', read)| == |View(s', read)| == |kept|;
    forall j | 0 <= j < |kept| ensures Keys(s', read)[j] == Keys(s, read)[kept[j]] {
      assert View(s', read)[j] == View(s, read)[kept[j]];
      assert View(s', read)[j] == Row(s', read, j) && View(s, read)[kept[j]] == Row(s, read, kept[j]);
    }
  }

  /** A deletion that removes something shows exactly the surviving rows, renumbered, if and only if the remaining
      keys can be stored. */
  lemma DeletionFaithful(s: Info, read: ArrayReader, gone: set<int>, onlyVisible: bool)
    requires exists i :: i in gone && 0 <= i < |Keys(s, read)|
    ensures
      Deletes(s, read, gone, Saved(s, Without(s, read, gone, onlyVisible), read)) <==>
      Storable(Remaining(s, read, gone), read)
  {
    var keys, s' := Remaining(s, read, gone), Saved(s, Without(s, read, gone, onlyVisible), read);
    var i :| i in gone && 0 <= i < |Keys(s, read)|;
    KeptShorter(|Keys(s, read)|, gone, i);
    CopyFollows(s, Keys(s, read), gone, onlyVisible, |Keys(s, read)|);
    if keys != [] {
      StorableReadsBack(keys, read);
    }
    if Storable(keys, read) {
      RowsFollow(s, read, gone, onlyVisible, s');
    } else if Deletes(s, read, gone, s') {
      KeysFollow(s, read, gone, s');
      assert false;
    }
  }

  /** An array is longer than its elements written one per line, by its brackets at least. */
  ghost predicate Bracketed(read: ArrayReader) {
    forall text | read(text).Some? :: |Join(read(text).value, '\n')| < |text|
  }

  /** So with a reader of JSON the remaining text must not read as an array at all. */
  lemma StorableAsLines(keys: seq<string>, read: ArrayReader)
    requires Bracketed(read)
    ensures Storable(keys, read) <==>
      keys != [] && ArrayIn(Join(keys, '\n'), read) == None && Joinable(keys, '\n')
  {
    TrimShorter(Join(keys, '\n'), IsSpace);
  }

  lemma {:induction false} NoneKept(n: nat, gone: set<int>)
    requires forall i | 0 <= i < n :: i in gone
    ensures Kept(n, gone) == []
  {
    if n > 0 {
      NoneKept(n - 1, gone);
    }
  }

  /** In particular, when every key is auto-disabled, deleting them reports success but keeps them all and
      shows every one of them enabled again. */
  lemma AllAutoDisabledRevive(s: Info, read: ArrayReader)
    requires Keys(s, read) != [] && forall i | 0 <= i < |Keys(s, read)| :: Status(s, i) == AUTO_DISABLED
    ensures Accepts(s, read, DeleteAutoDisabled)
    ensures
      var s' := Step(s, read, DeleteAutoDisabled);
      && Keys(s', read) == Keys(s, read)
      && forall i | 0 <= i < |Keys(s', read)| :: View(s', read)[i] == KeyStatus(Keys(s, read)[i], ENABLED, 0, "")
  {
    var gone := AutoDisabled(s, read);
    assert 0 in gone;
    NoneKept(|Keys(s, read)|, gone);
    CopyFollows(s, Keys(s, read), gone, true, |Keys(s, read)|);
  }

  /** A list of two keys, one per line. */
  function TwoKeys(key: string): Info {
    Info("x\n" + key, 2, map[], map[], map[], ENABLED)
  }

  /** Two key lists, one key per line, neither with an empty key. Deleting the first key of one stores text that reads
      as other keys, and of the other text that reads as no keys while one is counted. */
  lemma LinesReadAsArrays(read: ArrayReader)
    requires read("[1,2]") == Some(["1", "2"]) && read("[]") == Some([])
    ensures
      && Valid(TwoKeys("[1,2]"), read) && Keys(TwoKeys("[1,2]"), read) == ["x", "[1,2]"]
      && Keys(Step(TwoKeys("[1,2]"), read, DeleteKey(At(0))), read) == ["1", "2"]
    ensures
      && Valid(TwoKeys("[]"), read) && Keys(TwoKeys("[]"), read) == ["x", "[]"]
      && Keys(Step(TwoKeys("[]"), read, DeleteKey(At(0))), read) == []
      && Step(TwoKeys("[]"), read, DeleteKey(At(0))).size == 1
  {
    FirstDeleted("[1,2]", read, ["1", "2"]);
    FirstDeleted("[]", read, []);
  }

  lemma OneLine(key: string)
    requires key != "" && '\n' !in key
    ensures Fields(key, '\n') == [key]
  {
    FieldsOfJoin([key], '\n');
  }

  lemma TwoLines(key: string)
    requires key != "" && '\n' !in key
    ensures Fields("x\n" + key, '\n') == ["x", key]
  {
    var keys := ["x", key];
    assert keys[1..] == [key];
    assert Join(keys, '\n') == "x" + ['\n'] + key == "x\n" + key;
    FieldsOfJoin(keys, '\n');
  }

  lemma TwoKeysRead(key: string, read: ArrayReader)
    requires key != "" && '\n' !in key && Bare(key, IsSpace)
    ensures Keys(TwoKeys(key), read) == ["x", key]
  {
    TwoLines(key);
    var text := "x\n" + key;
    assert Bare(text, IsSpace) && text[0] == 'x';
  }

  lemma SecondRemains(s: Info, read: ArrayReader, key: string)
    requires Keys(s, read) == ["x", key]
    ensures Remaining(s, read, {0}) == [key]
  {
    assert Kept(2, {0}) == [1] by {
      assert Kept(1, {0}) == [];
    }
  }

  lemma FirstDeleted(key: string, read: ArrayReader, elements: seq<string>)
    requires key != "" && key[0] == '[' && '\n' !in key && Bare(key, IsSpace) && read(key) == Some(elements)
    ensures Valid(TwoKeys(key), read) && Keys(TwoKeys(key), read) == ["x", key]
    ensures
      var s' := Step(TwoKeys(key), read, DeleteKey(At(0)));
      Keys(s', read) == elements && s'.size == if elements == [] then 1 else |elements|
  {
    TwoKeysRead(key, read);
    var s' := Step(TwoKeys(key), read, DeleteKey(At(0)));
    assert s'.key == key by {
      SecondRemains(TwoKeys(key), read, key);
      NextTextStored(TwoKeys(key), read, DeleteKey(At(0)));
    }
    assert KeysIn(key, read) == elements;
    assert s'.size == CountIn(key, read) by {
      StepKeepsCounted(TwoKeys(key), read, DeleteKey(At(0)));
    }
    OneLine(key);
  }

  /** The two deleting actions, once accepted, in these terms. */
  lemma DeletingActions(s: Info, read: ArrayReader, a: Action)
    requires Valid(s, read) && Accepts(s, read, a) && Deleting(a)
    ensures Deletes(s, read, Gone(s, read, a), Step(s, read, a)) <==>
      Storable(Remaining(s, read, Gone(s, read, a)), read)
    ensures Step(s, read, a).channel == s.channel
  {
    var gone := Gone(s, read, a);
    if a.DeleteKey? {
      assert a.index.value in gone;
      DeletionFaithful(s, read, gone, false);
    } else {
      assert (forall i :: i !in gone) ==> gone == {};
      DeletionFaithful(s, read, gone, true);
    }
  }

  // ----- The other actions -----

  /** The row of a key as a manual disable leaves it: status two, with whatever was last recorded for it. */
  function DisabledRow(s: Info, read: ArrayReader, i: int): KeyStatus
    requires 0 <= i < |Keys(s, read)|
  {
    KeyStatus(Keys(s, read)[i], 2, Recorded(s.time, i, 0), Recorded(s.reason, i, ""))
  }

  /** The other actions keep every key in place and change only the rows they are about. */
  lemma SwitchingActions(s: Info, read: ArrayReader, a: Action, i: nat)
    requires Valid(s, read) && Accepts(s, read, a) && !Deleting(a) && i < |Keys(s, read)|
    ensures Keys(Step(s, read, a), read) == Keys(s, read)
    ensures !a.Report? ==> Step(s, read, a).channel == s.channel
    ensures
      var row, row' := Row(s, read, i), Row(Step(s, read, a), read, i);
      var enabled := KeyStatus(row.key, 1, 0, "");
      match a
      case DisableKey(k) => row' == if i == k.value then DisabledRow(s, read, i) else row
      case EnableKey(k) => row' == if i == k.value then enabled else row
      case EnableAll => row' == enabled
      case DisableAll => row' == if row.status == ENABLED then DisabledRow(s, read, i) else row
      case Report(key, status, reason, now) =>
        row' == if status == s.channel || i != FirstIndex(Keys(s, read), key) then row
                else if status == ENABLED then enabled
                else KeyStatus(row.key, status, now, reason)
  {
    match a
    case DisableKey(k) => SavedRow(s, s.(status := s.status[k.value := MANUALLY_DISABLED]), read, i);
    case EnableKey(k) =>
      var gone := {k.value};
      SavedRow(s, s.(status := s.status - gone, time := s.time - gone, reason := s.reason - gone), read, i);
    case EnableAll => SavedRow(s, s.(status := map[], time := map[], reason := map[]), read, i);
    case DisableAll => SavedRow(s, s.(status := WithDisabled(s.status, Enabled(s))), read, i);
    case Report(_, _, _, _) => ReportedRow(s, read, a, i);
  }

  lemma ReportedRow(s: Info, read: ArrayReader, a: Action, i: nat)
    requires a.Report? && i < |Keys(s, read)|
    ensures Keys(Reported(s, read, a), read) == Keys(s, read)
    ensures
      var row, row' := Row(s, read, i), Row(Reported(s, read, a), read, i);
      row' == if a.status == s.channel || i != FirstIndex(Keys(s, read), a.usingKey) then row
              else if a.status == ENABLED then KeyStatus(row.key, ENABLED, 0, "")
              else KeyStatus(row.key, a.status, a.now, a.reason)
  {
    var k := FirstIndex(Keys(s, read), a.usingKey);
    if a.status != s.channel && k < |Keys(s, read)| {
      assert Row(Followed(Marked(s, k, a), read, a), read, i) == Row(Marked(s, k, a), read, i);
    }
  }

  lemma SavedRow(s: Info, t: Info, read: ArrayReader, i: nat)
    requires t.key == s.key && i < |Keys(s, read)|
    ensures
      var s' := Saved(s, t, read);
      Keys(s', read) == Keys(s, read) && Row(s', read, i) == Row(t, read, i)
  {
  }

  /** A report about a known key changes nothing if it gives the status the channel has. Otherwise the channel goes by
      the rows then shown: auto-disabled when none is enabled, else enabled if the report enabled one, else left. */
  lemma ReportedChannel(s: Info, read: ArrayReader, a: Action)
    requires a.Report? && a.usingKey in Keys(s, read)
    ensures a.status == s.channel ==> Step(s, read, a) == s
    ensures a.status != s.channel ==>
      var s' := Step(s, read, a);
      s'.channel == if NoneEnabled(s', read) then 3 else if a.status == 1 then 1 else s.channel
  {
    if a.status != s.channel {
      var s', keys := Step(s, read, a), Keys(s, read);
      var i := FirstIndex(keys, a.usingKey);
      var m := Marked(s, i, a);
      assert Keys(m, read) == keys && View(m, read) == View(s', read);
      NoneEnabledShown(m, read);
    }
  }

  /** A report about no known key is dropped if it names one while there are keys; otherwise it is about the channel and
      changes nothing else. */
  lemma ReportedElsewhere(s: Info, read: ArrayReader, a: Action)
    requires a.Report? && a.usingKey !in Keys(s, read)
    ensures Keys(s, read) != [] && a.usingKey != "" ==> Step(s, read, a) == s
    ensures Keys(s, read) == [] || a.usingKey == "" ==> Step(s, read, a) == s.(channel := a.status)
  {
  }

  /** A report that names a key, and says that it failed or works again. */
  predicate KeyReport(a: Action) {
    a.Report? && a.usingKey != "" && (a.status == ENABLED || a.status == AUTO_DISABLED)
  }

  /** The channel is enabled exactly while some row is, and auto-disabled otherwise. */
  ghost predicate InStep(s: Info, read: ArrayReader) {
    && (s.channel == ENABLED <==> !NoneEnabled(s, read))
    && (s.channel == AUTO_DISABLED <==> NoneEnabled(s, read))
  }

  /** From an enabled channel with an enabled row, over every run of such reports, the channel is enabled if and only if
      some row is. */
  lemma {:induction false} ReportsKeepInStep(s: Info, read: ArrayReader, reports: seq<Action>)
    requires s.channel == ENABLED && !NoneEnabled(s, read) && forall a | a in reports :: KeyReport(a)
    ensures InStep(Run(s, read, reports), read) && Keys(Run(s, read, reports), read) == Keys(s, read)
  {
    if reports != [] {
      var past, a := reports[..|reports| - 1], reports[|reports| - 1];
      ReportsKeepInStep(s, read, past);
      assert Keys(s, read) != [] by {
        NoneEnabledShown(s, read);
      }
      ReportKeepsInStep(Run(s, read, past), read, a);
    }
  }

  lemma ReportKeepsInStep(s: Info, read: ArrayReader, a: Action)
    requires InStep(s, read) && KeyReport(a) && Keys(s, read) != []
    ensures InStep(Step(s, read, a), read) && Keys(Step(s, read, a), read) == Keys(s, read)
  {
    if a.usingKey in Keys(s, read) {
      ReportedChannel(s, read, a);
      if a.status != s.channel {
        var i := FirstIndex(Keys(s, read), a.usingKey);
        ReportedRow(s, read, a, i);
        var s' := Step(s, read, a);
        if a.status == ENABLED {
          assert View(s', read)[i].status == ENABLED && View(s', read)[i] in View(s', read);
        }
      }
    } else {
      ReportedElsewhere(s, read, a);
    }
  }

  ghost predicate NoneEnabled(s: Info, read: ArrayReader) {
    forall row | row in View(s, read) :: row.status != ENABLED
  }

  lemma NoneEnabledShown(s: Info, read: ArrayReader)
    ensures NoneEnabled(s, read) <==> !SomeEnabled(s, read)
  {
    if SomeEnabled(s, read) {
      var k :| 0 <= k < |Keys(s, read)| && Status(s, k) == ENABLED;
      assert View(s, read)[k] in View(s, read);
    } else {
      forall row | row in View(s, read) ensures row.status != ENABLED {
        var k :| 0 <= k < |Keys(s, read)| && View(s, read)[k] == row;
      }
    }
  }

  /** So a channel may stay enabled without an enabled key: once all are disabled by hand, no report that one works is
      taken in. */
  lemma EnabledWithoutKeys(s: Info, read: ArrayReader, a: Action)
    requires Valid(s, read) && s.channel == ENABLED && a.Report? && a.status == ENABLED
    ensures
      var s' := Step(Step(s, read, DisableAll), read, a);
      s'.channel == ENABLED && NoneEnabled(s', read) && Keys(s', read) == Keys(s, read)
  {
    var s' := Step(s, read, DisableAll);
    if Accepts(s, read, DisableAll) {
      assert Keys(s', read) == Keys(s, read);
      forall i | 0 <= i < |Keys(s', read)| ensures Status(s', i) != ENABLED {
        SwitchingActions(s, read, DisableAll, i);
      }
    } else {
      forall i | 0 <= i < |Keys(s, read)| ensures Status(s, i) != ENABLED {
        assert i !in Enabled(s);
      }
    }
    NoneEnabledShown(s', read);
  }

  /** What is recorded for a key outlives being enabled by a report, but not by hand. */
  lemma RecordAfter(s: Info, read: ArrayReader, a: Action, i: nat)
    requires Valid(s, read) && i < |Keys(s, read)| && i == FirstIndex(Keys(s, read), Keys(s, read)[i])
    requires a == EnableKey(At(i)) || (a.Report? && a.usingKey == Keys(s, read)[i])
    ensures
      var s', taken := Step(s, read, a), a.Report? && a.status != s.channel && a.status != ENABLED;
      && Recorded(s'.time, i, 0) == (if a.EnableKey? then 0 else if taken then a.now else Recorded(s.time, i, 0))
      && Recorded(s'.reason, i, "") ==
           (if a.EnableKey? then "" else if taken then a.reason else Recorded(s.reason, i, ""))
  {
  }

  /** A key is reported to fail, is enabled again, and is then disabled by hand. It shows the time and reason of the
      failure if and only if it was enabled by a report and the failure was taken in. If it was not, what was recorded
      before shows, and after enabling by hand nothing does. */
  lemma StaleRecord(s: Info, read: ArrayReader, i: nat, failed: Action, enabling: Action)
    requires Valid(s, read) && i < |Keys(s, read)| && i == FirstIndex(Keys(s, read), Keys(s, read)[i])
    requires failed.Report? && failed.usingKey == Keys(s, read)[i] && failed.status != ENABLED
    requires
      || enabling == EnableKey(At(i))
      || (enabling.Report? && enabling.usingKey == Keys(s, read)[i] && enabling.status == ENABLED)
    ensures
      var s' := Step(Step(s, read, failed), read, enabling);
      var last, taken := Step(s', read, DisableKey(At(i))), failed.status != s.channel;
      && Keys(last, read) == Keys(s, read)
      && Row(last, read, i) ==
         if enabling.EnableKey? then KeyStatus(Keys(s, read)[i], MANUALLY_DISABLED, 0, "")
         else if taken then KeyStatus(Keys(s, read)[i], MANUALLY_DISABLED, failed.now, failed.reason)
         else DisabledRow(s, read, i)
  {
    var first := Step(s, read, failed);
    SwitchingActions(s, read, failed, i);
    RecordAfter(s, read, failed, i);
    KeepsValid(s, read, failed);
    var second := Step(first, read, enabling);
    SwitchingActions(first, read, enabling, i);
    RecordAfter(first, read, enabling, i);
    KeepsValid(first, read, enabling);
    SwitchingActions(second, read, DisableKey(At(i)), i);
  }

  lemma KeepsValid(s: Info, read: ArrayReader, a: Action)
    requires Valid(s, read) && Keys(s, read) != [] && !Deleting(a)
    ensures Valid(Step(s, read, a), read)
  {
    CountedValid(s, read);
    StepValidExactly(s, read, [], a);
  }

  // ----- What is accepted, from what is shown -----

  /** Switching one key takes a row of that index, deleting it another row besides, and the bulk actions a row to act
      on. */
  lemma AcceptedExactly(s: Info, read: ArrayReader, a: Action)
    requires Valid(s, read)
    ensures
      var rows := View(s, read);
      Accepts(s, read, a) <==>
        match a
        case DisableKey(k) => k.At? && 0 <= k.value < |rows|
        case EnableKey(k) => k.At? && 0 <= k.value < |rows|
        case DeleteKey(k) => k.At? && 0 <= k.value < |rows| && |rows| >= 2
        case DisableAll => exists row | row in rows :: row.status == 1
        case DeleteAutoDisabled => exists row | row in rows :: row.status == 3
        case EnableAll => true
        case Report(_, _, _, _) => true
  {
    var rows := View(s, read);
    assert forall i | 0 <= i < |rows| :: rows[i] in rows && rows[i].status == Status(s, i);
    match a
    case DisableKey(_) =>
    case EnableKey(_) =>
    case EnableAll =>
    case Report(_, _, _, _) =>
    case DisableAll => IndexedRows(s, read, Enabled(s), ENABLED);
    case DeleteAutoDisabled => IndexedRows(s, read, AutoDisabled(s, read), AUTO_DISABLED);
    case DeleteKey(k) =>
      if InRange(s, k) {
        KeptAllButOne(|rows|, k.value);
      }
  }

  lemma IndexedRows(s: Info, read: ArrayReader, indices: set<int>, status: int)
    requires forall i :: i in indices <==> 0 <= i < |Keys(s, read)| && Status(s, i) == status
    ensures indices != {} <==> exists row | row in View(s, read) :: row.status == status
  {
    var rows := View(s, read);
    assert (forall i :: i !in indices) ==> indices == {};
    if indices != {} {
      var i :| i in indices;
      assert rows[i] in rows;
    }
    if row :| row in rows && row.status == status {
      var i :| 0 <= i < |rows| && rows[i] == row;
      assert i in indices;
    }
  }

  lemma {:induction false} KeptAllButOne(n: nat, gone: int)
    requires 0 <= gone < n
    ensures |Kept(n, {gone})| == n - 1
  {
    if gone < n - 1 {
      KeptAllButOne(n - 1, gone);
    } else {
      KeptAll(n - 1, gone);
    }
  }

  lemma {:induction false} KeptAll(n: nat, gone: int)
    requires gone >= n
    ensures |Kept(n, {gone})| == n
  {
    if n > 0 {
      KeptAll(n - 1, gone);
    }
  }
}
