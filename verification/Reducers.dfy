/** The state channels and their reducers: what a merge keeps, why replaying one is harmless, and why
    a nested graph that echoes its whole state back changes nothing. */
module Reducers {
  import opened Orders
  import opened Strings
  import opened Lifecycle

  /** A record in an append-only channel: its type name, its string attributes, and its repr. Two
      records are equal when all three are. */
  datatype Item = Item(typeName: string, attrs: map<string, string>, repr: string)

  const KEY_ATTRS: seq<string> := [
    "ref", "result_id", "action_id", "approval_id", "decision_id", "event_id", "finding_id", "key"]

  function KeyFrom(attrs: seq<string>, item: Item): string {
    if attrs == [] then item.typeName + ":" + item.repr
    else if attrs[0] in item.attrs && item.attrs[attrs[0]] != "" then item.typeName + ":" + item.attrs[attrs[0]]
    else KeyFrom(attrs[1..], item)
  }

  /** The de-duplication key: the first key attribute that is set, or the repr. */
  function NaturalKey(item: Item): string { KeyFrom(KEY_ATTRS, item) }

  function KeysOf(xs: seq<Item>): set<string> { set x | x in xs :: NaturalKey(x) }

  // -- what the key is ---------------------------------------------------------------------------

  predicate Sets(item: Item, i: int) { 0 <= i < |KEY_ATTRS| && KEY_ATTRS[i] in item.attrs && item.attrs[KEY_ATTRS[i]] != "" }

  /** What tells a record from others of its type: the value of the first key attribute it sets, in the
      listed order, or its repr when it sets none. */
  ghost predicate IdentifiedBy(item: Item, text: string) {
    || (exists i :: Sets(item, i) && (forall j :: 0 <= j < i ==> !Sets(item, j)) && text == item.attrs[KEY_ATTRS[i]])
    || ((forall i :: !Sets(item, i)) && text == item.repr)
  }

  lemma {:induction false} KeyIsIdentity(item: Item, n: nat) returns (text: string)
    requires n <= |KEY_ATTRS| && forall j :: 0 <= j < n ==> !Sets(item, j)
    ensures IdentifiedBy(item, text) && KeyFrom(KEY_ATTRS[n..], item) == item.typeName + ([':'] + text)
    decreases |KEY_ATTRS| - n
  {
    if n == |KEY_ATTRS| {
      text := item.repr;
      assert KEY_ATTRS[n..] == [];
      assert KeyFrom([], item) == item.typeName + ":" + item.repr == item.typeName + ([':'] + text);
    } else if Sets(item, n) {
      text := item.attrs[KEY_ATTRS[n]];
      assert KEY_ATTRS[n..][0] == KEY_ATTRS[n];
      assert item.typeName + ":" + text == item.typeName + ([':'] + text);
    } else {
      assert KEY_ATTRS[n..][1..] == KEY_ATTRS[n + 1..];
      text := KeyIsIdentity(item, n + 1);
    }
  }

  lemma IdentifiedOnce(item: Item, a: string, b: string)
    requires IdentifiedBy(item, a) && IdentifiedBy(item, b)
    ensures a == b
  {
    if i :| Sets(item, i) && (forall j :: 0 <= j < i ==> !Sets(item, j)) && a == item.attrs[KEY_ATTRS[i]] {
      var k :| Sets(item, k) && (forall j :: 0 <= j < k ==> !Sets(item, j)) && b == item.attrs[KEY_ATTRS[k]];
      assert !(i < k) && !(k < i);
    }
  }

  /** Two records are one to the channel: same type, same identity. */
  ghost predicate SameRecord(x: Item, y: Item) {
    x.typeName == y.typeName && exists text :: IdentifiedBy(x, text) && IdentifiedBy(y, text)
  }

  lemma KeysAgreeIff(x: Item, y: Item)
    requires ':' !in x.typeName && ':' !in y.typeName
    ensures NaturalKey(x) == NaturalKey(y) <==> SameRecord(x, y)
  {
    hide KeyFrom, IdentifiedBy;
    var a := KeyIsIdentity(x, 0);
    var b := KeyIsIdentity(y, 0);
    assert KEY_ATTRS[0..] == KEY_ATTRS;
    if NaturalKey(x) == NaturalKey(y) { FieldsSplit(':', x.typeName, a, y.typeName, b); }
    if text :| IdentifiedBy(x, text) && IdentifiedBy(y, text) {
      IdentifiedOnce(x, a, text);
      IdentifiedOnce(y, b, text);
    }
  }

  /** One record more: kept out exactly when a record of its type with its identity is there already, and
      otherwise put at the end. Type names hold no colon. */
  lemma AppendUniqueMeans(current: seq<Item>, x: Item)
    requires ':' !in x.typeName && forall y :: y in current ==> ':' !in y.typeName
    ensures AppendUnique(current, [x]) ==
      if exists y :: y in current && SameRecord(x, y) then current else current + [x]
  {
    hide NaturalKey, SameRecord;
    assert [x][..0] == [] && AppendUnique(current, []) == current;
    forall y | y in current ensures NaturalKey(x) == NaturalKey(y) <==> SameRecord(x, y) { KeysAgreeIff(x, y); }
    assert NaturalKey(x) in KeysOf(current) <==> exists y :: y in current && NaturalKey(y) == NaturalKey(x);
  }

  // -- append_unique and append_revision ---------------------------------------------------------

  function AppendUnique(current: seq<Item>, incoming: seq<Item>): seq<Item> {
    if incoming == [] then current
    else
      var out := AppendUnique(current, incoming[..|incoming| - 1]);
      var item := incoming[|incoming| - 1];
      if NaturalKey(item) in KeysOf(out) then out else out + [item]
  }

  function AppendRevision(current: seq<Item>, incoming: seq<Item>): seq<Item> {
    if incoming == [] then current
    else
      var out := AppendRevision(current, incoming[..|incoming| - 1]);
      var item := incoming[|incoming| - 1];
      if item in out then out else out + [item]
  }

  method AppendUniqueLoop(current: seq<Item>, incoming: seq<Item>) returns (out: seq<Item>)
    ensures out == AppendUnique(current, incoming)
  {
    hide NaturalKey;
    out := current;
    var seen := KeysOf(out);
    var i := 0;
    assert incoming[..0] == [];
    while i < |incoming|
      invariant 0 <= i <= |incoming|
      invariant out == AppendUnique(current, incoming[..i]) && seen == KeysOf(out)
    {
      assert incoming[..i + 1][..i] == incoming[..i];
      var key := NaturalKey(incoming[i]);
      if key !in seen {
        seen := seen + {key};
        out := out + [incoming[i]];
      }
      i := i + 1;
    }
    assert incoming[..i] == incoming;
  }

  method AppendRevisionLoop(current: seq<Item>, incoming: seq<Item>) returns (out: seq<Item>)
    ensures out == AppendRevision(current, incoming)
  {
    out := current;
    var i := 0;
    assert incoming[..0] == [];
    while i < |incoming|
      invariant 0 <= i <= |incoming|
      invariant out == AppendRevision(current, incoming[..i])
    {
      assert incoming[..i + 1][..i] == incoming[..i];
      if incoming[i] !in out { out := out + [incoming[i]]; }
      i := i + 1;
    }
    assert incoming[..i] == incoming;
  }

  /** No two records of an `append_unique` channel share a key. */
  ghost predicate UniqueKeys(xs: seq<Item>) {
    forall i, j :: 0 <= i < j < |xs| ==> NaturalKey(xs[i]) != NaturalKey(xs[j])
  }

  lemma KeysConcat(xs: seq<Item>, x: Item)
    ensures KeysOf(xs + [x]) == KeysOf(xs) + {NaturalKey(x)}
  {
    hide NaturalKey;
    assert forall y :: y in xs + [x] <==> y in xs || y == x;
  }

  lemma UniqueAppend(xs: seq<Item>, x: Item)
    requires UniqueKeys(xs) && NaturalKey(x) !in KeysOf(xs)
    ensures UniqueKeys(xs + [x])
  {
    hide NaturalKey;
    forall i | 0 <= i < |xs| ensures NaturalKey(xs[i]) != NaturalKey(x) { assert xs[i] in xs; }
  }

  lemma {:induction false} UniqueGrows(current: seq<Item>, incoming: seq<Item>)
    ensures var out := AppendUnique(current, incoming);
      && current <= out
      && KeysOf(out) == KeysOf(current) + KeysOf(incoming)
      && (UniqueKeys(current) ==> UniqueKeys(out))
  {
    hide NaturalKey, UniqueKeys, KeysOf;
    if incoming == [] {
      NoKeys();
    } else {
      var n := |incoming| - 1;
      UniqueGrows(current, incoming[..n]);
      var out := AppendUnique(current, incoming[..n]);
      assert incoming == incoming[..n] + [incoming[n]];
      KeysConcat(incoming[..n], incoming[n]);
      KeysConcat(out, incoming[n]);
      if UniqueKeys(out) && NaturalKey(incoming[n]) !in KeysOf(out) { UniqueAppend(out, incoming[n]); }
    }
  }

  lemma NoKeys()
    ensures KeysOf([]) == {}
  {
  }

  /** Records whose keys are already present add nothing. */
  lemma {:induction false} UniqueIgnoresKnown(current: seq<Item>, incoming: seq<Item>)
    requires KeysOf(incoming) <= KeysOf(current)
    ensures AppendUnique(current, incoming) == current
  {
    hide NaturalKey;
    if incoming != [] {
      var n := |incoming| - 1;
      assert incoming == incoming[..n] + [incoming[n]];
      assert KeysOf(incoming[..n]) <= KeysOf(incoming) && NaturalKey(incoming[n]) in KeysOf(incoming);
      UniqueIgnoresKnown(current, incoming[..n]);
    }
  }

  lemma LastKeyIsNew(xs: seq<Item>)
    requires UniqueKeys(xs) && xs != []
    ensures UniqueKeys(xs[..|xs| - 1]) && NaturalKey(xs[|xs| - 1]) !in KeysOf(xs[..|xs| - 1])
  {
    hide NaturalKey;
  }

  /** Merging a longer version of the same list yields that version. */
  lemma {:induction false} UniqueAbsorbsEcho(current: seq<Item>, grown: seq<Item>)
    requires current <= grown && UniqueKeys(grown)
    ensures AppendUnique(current, grown) == grown
  {
    hide NaturalKey, UniqueKeys, KeysOf;
    if |grown| == |current| {
      assert current == grown;
      UniqueIgnoresKnown(current, grown);
    } else {
      var n := |grown| - 1;
      LastKeyIsNew(grown);
      UniqueAbsorbsEcho(current, grown[..n]);
      assert grown == grown[..n] + [grown[n]];
    }
  }

  lemma {:induction false} RevisionGrows(current: seq<Item>, incoming: seq<Item>)
    ensures var out := AppendRevision(current, incoming);
      && current <= out
      && (forall x :: x in out <==> x in current || x in incoming)
      && (Distinct(current) ==> Distinct(out))
  {
    hide Distinct;
    if incoming != [] {
      var n := |incoming| - 1;
      RevisionGrows(current, incoming[..n]);
      assert incoming == incoming[..n] + [incoming[n]];
      var out := AppendRevision(current, incoming[..n]);
      if Distinct(out) && incoming[n] !in out { DistinctAppend(out, incoming[n]); }
    }
  }

  lemma {:induction false} RevisionIgnoresKnown(current: seq<Item>, incoming: seq<Item>)
    requires forall x :: x in incoming ==> x in current
    ensures AppendRevision(current, incoming) == current
  {
    if incoming != [] {
      var n := |incoming| - 1;
      assert incoming == incoming[..n] + [incoming[n]];
      RevisionIgnoresKnown(current, incoming[..n]);
    }
  }

  lemma {:induction false} RevisionAbsorbsEcho(current: seq<Item>, grown: seq<Item>)
    requires current <= grown && Distinct(grown)
    ensures AppendRevision(current, grown) == grown
  {
    hide Distinct;
    if |grown| == |current| {
      assert grown == current;
      RevisionIgnoresKnown(current, grown);
    } else {
      var n := |grown| - 1;
      LastIsNew(grown);
      RevisionAbsorbsEcho(current, grown[..n]);
      assert grown == grown[..n] + [grown[n]];
    }
  }

  lemma LastIsNew(xs: seq<Item>)
    requires xs != [] && Distinct(xs)
    ensures Distinct(xs[..|xs| - 1]) && xs[|xs| - 1] !in xs[..|xs| - 1]
  {
  }

  lemma {:induction false} RevisionSplits(current: seq<Item>, a: seq<Item>, b: seq<Item>)
    ensures AppendRevision(current, a + b) == AppendRevision(AppendRevision(current, a), b)
  {
    if b == [] {
      assert a + b == a;
    } else {
      var n := |b| - 1;
      assert (a + b)[..|a + b| - 1] == a + b[..n];
      RevisionSplits(current, a, b[..n]);
    }
  }

  // -- the other reducers ------------------------------------------------------------------------

  function Get<V>(m: map<string, V>, k: string, default: V): V { if k in m then m[k] else default }

  /** Per-key maximum, for visit counts and retries. */
  function MergeMax(current: map<string, int>, update: map<string, int>): map<string, int> {
    map k | k in current.Keys + update.Keys :: if k in update then Max(Get(current, k, 0), update[k]) else current[k]
  }

  method MergeRetriesLoop(current: map<string, int>, update: map<string, int>) returns (out: map<string, int>)
    ensures out == MergeMax(current, update)
  {
    out := current;
    var left := update.Keys;
    while left != {}
      invariant left <= update.Keys
      invariant out.Keys == current.Keys + (update.Keys - left)
      invariant forall k :: k in out ==>
        out[k] == if k in update && k !in left then Max(Get(current, k, 0), update[k]) else current[k]
      decreases left
    {
      assert (forall k :: k !in left) ==> left == {};
      var key: string :| key in left;
      out := out[key := Max(Get(out, key, 0), update[key])];
      left := left - {key};
    }
  }

  // -- the state ---------------------------------------------------------------------------------

  /** Every channel of the state grouped by its reducer, a missing entry meaning the channel is unset.
      An update has the same shape: the channels a node returned, or a nested graph's whole state. */
  datatype State = State(
    once: map<string, string>, status: Option<Status>,
    uniques: map<string, seq<Item>>, revisions: map<string, seq<Item>>,
    counters: map<string, int>, dicts: map<string, map<string, string>>, maxima: map<string, map<string, int>>,
    plain: map<string, string>)

  const UNSET := State(map[], None, map[], map[], map[], map[], map[], map[])

  /** No reducer raises: every write-once channel agrees and the status move is legal. */
  ghost predicate Mergeable(s: State, u: State) {
    && (forall k :: k in s.once && k in u.once ==> s.once[k] == u.once[k])
    && AdvanceStatus(s.status, u.status).Some?
  }

  function MergeLists(s: map<string, seq<Item>>, u: map<string, seq<Item>>, f: (seq<Item>, seq<Item>) -> seq<Item>): map<string, seq<Item>> {
    map k | k in s.Keys + u.Keys :: if k in u then f(Get(s, k, []), u[k]) else s[k]
  }

  function MergeDicts(s: map<string, map<string, string>>, u: map<string, map<string, string>>): map<string, map<string, string>> {
    map k | k in s.Keys + u.Keys :: if k in u then Get(s, k, map[]) + u[k] else s[k]
  }

  function MergeMaxima(s: map<string, map<string, int>>, u: map<string, map<string, int>>): map<string, map<string, int>> {
    map k | k in s.Keys + u.Keys :: if k in u then MergeMax(Get(s, k, map[]), u[k]) else s[k]
  }

  function Merged(s: State, u: State): State
    requires Mergeable(s, u)
  {
    State(
      s.once + u.once, AdvanceStatus(s.status, u.status).value,
      MergeLists(s.uniques, u.uniques, AppendUnique), MergeLists(s.revisions, u.revisions, AppendRevision),
      MergeMax(s.counters, u.counters), MergeDicts(s.dicts, u.dicts), MergeMaxima(s.maxima, u.maxima),
      s.plain + u.plain)
  }

  /** A merge touches only what the update names: every other channel, key and record stays. */
  lemma UnnamedStays(s: State, u: State)
    requires Mergeable(s, u)
    ensures var m := Merged(s, u);
      && (forall k :: k !in u.once ==> (k in m.once <==> k in s.once) && (k in s.once ==> m.once[k] == s.once[k]))
      && (forall k :: k !in u.plain ==> (k in m.plain <==> k in s.plain) && (k in s.plain ==> m.plain[k] == s.plain[k]))
      && (forall k :: k !in u.uniques ==> (k in m.uniques <==> k in s.uniques) && (k in s.uniques ==> m.uniques[k] == s.uniques[k]))
      && (forall k :: k !in u.revisions ==> (k in m.revisions <==> k in s.revisions) && (k in s.revisions ==> m.revisions[k] == s.revisions[k]))
      && (forall k :: k !in u.counters ==> (k in m.counters <==> k in s.counters) && (k in s.counters ==> m.counters[k] == s.counters[k]))
      && (u.status == None ==> m.status == s.status)
      && (forall k, j :: k in s.dicts && j in s.dicts[k] && (k in u.dicts ==> j !in u.dicts[k]) ==>
           k in m.dicts && j in m.dicts[k] && m.dicts[k][j] == s.dicts[k][j])
      && (forall k, j :: k in s.maxima && j in s.maxima[k] && (k in u.maxima ==> j !in u.maxima[k]) ==>
           k in m.maxima && j in m.maxima[k] && m.maxima[k][j] == s.maxima[k][j])
  {
    hide AppendUnique, AppendRevision, CanTransition;
  }

  /** What the update names it gets: its value where the last write wins, at least its value where the
      larger does, all its records where they pile up; and no channel appears that neither named. */
  lemma NamedIsWritten(s: State, u: State)
    requires Mergeable(s, u)
    ensures var m := Merged(s, u);
      && (forall k :: k in u.once ==> k in m.once && m.once[k] == u.once[k])
      && (forall k :: k in u.plain ==> k in m.plain && m.plain[k] == u.plain[k])
      && (u.status.Some? ==> m.status == u.status)
      && (forall k, j :: k in u.dicts && j in u.dicts[k] ==> k in m.dicts && j in m.dicts[k] && m.dicts[k][j] == u.dicts[k][j])
      && (forall k, j :: k in m.dicts && j in m.dicts[k] ==>
           (k in u.dicts && j in u.dicts[k]) || (k in s.dicts && j in s.dicts[k]))
      && (forall k :: k in u.counters ==> k in m.counters && m.counters[k] == Larger(s.counters, k, u.counters[k]))
      && (forall k, j :: k in u.maxima && j in u.maxima[k] ==>
           && k in m.maxima && j in m.maxima[k]
           && m.maxima[k][j] == if k in s.maxima then Larger(s.maxima[k], j, u.maxima[k][j]) else Larger(map[], j, u.maxima[k][j]))
  {
    hide MergeLists, CanTransition;
  }

  /** A written record is in its channel, or one with its key was there first. */
  lemma RecordsAreKept(s: State, u: State, k: string, x: Item)
    requires Mergeable(s, u)
    ensures k in u.uniques && x in u.uniques[k] ==> k in Merged(s, u).uniques && NaturalKey(x) in KeysOf(Merged(s, u).uniques[k])
    ensures k in u.revisions && x in u.revisions[k] ==> k in Merged(s, u).revisions && x in Merged(s, u).revisions[k]
    ensures k in s.revisions && x in s.revisions[k] ==> k in Merged(s, u).revisions && x in Merged(s, u).revisions[k]
  {
    hide AppendUnique, AppendRevision, CanTransition, NaturalKey, MergeDicts, MergeMaxima, MergeMax;
    if k in u.uniques { UniqueGrows(Get(s.uniques, k, []), u.uniques[k]); }
    if k in u.revisions { RevisionGrows(Get(s.revisions, k, []), u.revisions[k]); }
  }

  /** The larger of a write and what stands, counting nothing as zero. */
  function Larger(m: Counts, k: string, v: int): int { if k in m && m[k] > v then m[k] else if k !in m && 0 > v then 0 else v }

  // -- replay ------------------------------------------------------------------------------------

  lemma MaxTwice(s: map<string, int>, u: map<string, int>)
    ensures MergeMax(MergeMax(s, u), u) == MergeMax(s, u)
  {
  }

  lemma MaximaTwice(s: map<string, map<string, int>>, u: map<string, map<string, int>>)
    ensures MergeMaxima(MergeMaxima(s, u), u) == MergeMaxima(s, u)
  {
    forall k | k in u { MaxTwice(Get(s, k, map[]), u[k]); }
  }

  lemma UniquesTwice(s: map<string, seq<Item>>, u: map<string, seq<Item>>)
    ensures MergeLists(MergeLists(s, u, AppendUnique), u, AppendUnique) == MergeLists(s, u, AppendUnique)
  {
    hide AppendUnique;
    forall k | k in u ensures AppendUnique(AppendUnique(Get(s, k, []), u[k]), u[k]) == AppendUnique(Get(s, k, []), u[k]) {
      UniqueGrows(Get(s, k, []), u[k]);
      UniqueIgnoresKnown(AppendUnique(Get(s, k, []), u[k]), u[k]);
    }
  }

  lemma RevisionsTwice(s: map<string, seq<Item>>, u: map<string, seq<Item>>)
    ensures MergeLists(MergeLists(s, u, AppendRevision), u, AppendRevision) == MergeLists(s, u, AppendRevision)
  {
    hide AppendRevision;
    forall k | k in u ensures AppendRevision(AppendRevision(Get(s, k, []), u[k]), u[k]) == AppendRevision(Get(s, k, []), u[k]) {
      RevisionGrows(Get(s, k, []), u[k]);
      RevisionIgnoresKnown(AppendRevision(Get(s, k, []), u[k]), u[k]);
    }
  }

  lemma DictsTwice(s: map<string, map<string, string>>, u: map<string, map<string, string>>)
    ensures MergeDicts(MergeDicts(s, u), u) == MergeDicts(s, u)
  {
    forall k | k in u ensures (Get(s, k, map[]) + u[k]) + u[k] == Get(s, k, map[]) + u[k] {}
  }

  /** A node that replays after an interrupt returns its update again, and nothing changes: the second
      merge is legal whenever the first was, and is the identity on every channel. */
  lemma {:induction false} ReplayIsHarmless(s: State, u: State)
    requires Mergeable(s, u)
    ensures Mergeable(Merged(s, u), u) && Merged(Merged(s, u), u) == Merged(s, u)
  {
    hide MergeLists, MergeMax, MergeDicts, MergeMaxima;
    UniquesTwice(s.uniques, u.uniques);
    RevisionsTwice(s.revisions, u.revisions);
    MaxTwice(s.counters, u.counters);
    DictsTwice(s.dicts, u.dicts);
    MaximaTwice(s.maxima, u.maxima);
    assert (s.once + u.once) + u.once == s.once + u.once;
    assert (s.plain + u.plain) + u.plain == s.plain + u.plain;
  }

  /** The same update merged `times` times after the first. */
  ghost predicate MergedTimes(s: State, u: State, times: nat, r: State) {
    if times == 0 then r == s
    else exists m :: MergedTimes(s, u, times - 1, m) && Mergeable(m, u) && r == Merged(m, u)
  }

  lemma {:induction false} AnyNumberOfReplays(s: State, u: State, times: nat, r: State)
    requires Mergeable(s, u) && times > 0 && MergedTimes(s, u, times, r)
    ensures r == Merged(s, u)
  {
    hide Merged, Mergeable;
    var m :| MergedTimes(s, u, times - 1, m) && Mergeable(m, u) && r == Merged(m, u);
    if times > 1 {
      AnyNumberOfReplays(s, u, times - 1, m);
      ReplayIsHarmless(s, u);
    }
  }

  // -- nesting -----------------------------------------------------------------------------------

  type Lists = map<string, seq<Item>>
  type Counts = map<string, int>

  ghost predicate UniquesSound(m: Lists) { forall k :: k in m ==> UniqueKeys(m[k]) }
  ghost predicate RevisionsSound(m: Lists) { forall k :: k in m ==> Distinct(m[k]) }
  ghost predicate CountsSound(m: Counts) { forall k :: k in m ==> m[k] >= 0 }
  ghost predicate MaximaSound(m: map<string, Counts>) { forall k :: k in m ==> CountsSound(m[k]) }

  /** What every channel keeps from the first write on. */
  ghost predicate Sound(s: State) {
    UniquesSound(s.uniques) && RevisionsSound(s.revisions) && CountsSound(s.counters) && MaximaSound(s.maxima)
  }

  ghost predicate OnceLater(a: map<string, string>, b: map<string, string>) { forall k :: k in a ==> k in b && b[k] == a[k] }
  ghost predicate ListsLater(a: Lists, b: Lists) { forall k :: k in a ==> k in b && a[k] <= b[k] }
  ghost predicate CountsLater(a: Counts, b: Counts) { forall n :: n in a ==> n in b && a[n] <= b[n] }
  ghost predicate MaximaLater(a: map<string, Counts>, b: map<string, Counts>) { forall k :: k in a ==> k in b && CountsLater(a[k], b[k]) }
  ghost predicate DictsLater(a: map<string, map<string, string>>, b: map<string, map<string, string>>) {
    forall k :: k in a ==> k in b && a[k].Keys <= b[k].Keys
  }

  /** `c` is a later value of every channel of `s`. */
  ghost predicate Later(s: State, c: State) {
    && OnceLater(s.once, c.once) && (s.status.Some? ==> c.status.Some?)
    && ListsLater(s.uniques, c.uniques) && ListsLater(s.revisions, c.revisions)
    && CountsLater(s.counters, c.counters) && DictsLater(s.dicts, c.dicts) && MaximaLater(s.maxima, c.maxima)
    && s.plain.Keys <= c.plain.Keys
  }

  lemma NothingClashes()
    ensures UniqueKeys([]) && Distinct<Item>([]) && CountsSound(map[])
  {
  }

  lemma UniquesMove(s: Lists, u: Lists)
    ensures ListsLater(s, MergeLists(s, u, AppendUnique))
    ensures UniquesSound(s) ==> UniquesSound(MergeLists(s, u, AppendUnique))
  {
    hide AppendUnique, UniqueKeys;
    NothingClashes();
    forall k | k in u { UniqueGrows(Get(s, k, []), u[k]); }
  }

  lemma RevisionsMove(s: Lists, u: Lists)
    ensures ListsLater(s, MergeLists(s, u, AppendRevision))
    ensures RevisionsSound(s) ==> RevisionsSound(MergeLists(s, u, AppendRevision))
  {
    hide AppendRevision, Distinct;
    NothingClashes();
    forall k | k in u { RevisionGrows(Get(s, k, []), u[k]); }
  }

  lemma CountsMove(s: Counts, u: Counts)
    ensures CountsLater(s, MergeMax(s, u))
    ensures CountsSound(s) ==> CountsSound(MergeMax(s, u))
  {
  }

  lemma MaximaMove(s: map<string, Counts>, u: map<string, Counts>)
    ensures MaximaLater(s, MergeMaxima(s, u))
    ensures MaximaSound(s) ==> MaximaSound(MergeMaxima(s, u))
  {
    hide MergeMax, CountsSound;
    NothingClashes();
    forall k | k in u { CountsMove(Get(s, k, map[]), u[k]); }
    forall k | k in s { CountsReflexive(s[k]); }
  }

  lemma CountsReflexive(a: Counts)
    ensures CountsLater(a, a)
  {
  }

  lemma DictsMove(s: map<string, map<string, string>>, u: map<string, map<string, string>>)
    ensures DictsLater(s, MergeDicts(s, u))
  {
  }

  lemma MergeMoves(s: State, u: State)
    requires Mergeable(s, u)
    ensures Later(s, Merged(s, u)) && (Sound(s) ==> Sound(Merged(s, u)))
  {
    hide MergeLists, MergeMax, MergeMaxima, MergeDicts, CanTransition;
    hide UniquesSound, RevisionsSound, CountsSound, MaximaSound, ListsLater, CountsLater, MaximaLater, DictsLater;
    UniquesMove(s.uniques, u.uniques);
    RevisionsMove(s.revisions, u.revisions);
    CountsMove(s.counters, u.counters);
    MaximaMove(s.maxima, u.maxima);
    DictsMove(s.dicts, u.dicts);
  }

  /** The state after a sequence of node updates, none when some reducer raised. */
  ghost function After(s: State, updates: seq<State>): Option<State> {
    if updates == [] then Some(s)
    else
      var before := After(s, updates[..|updates| - 1]);
      var u := updates[|updates| - 1];
      if before.Some? && Mergeable(before.value, u) then Some(Merged(before.value, u)) else None
  }

  lemma {:induction false} AfterIsLater(s: State, updates: seq<State>)
    requires Sound(s) && After(s, updates).Some?
    ensures Sound(After(s, updates).value) && Later(s, After(s, updates).value)
  {
    hide Sound, Mergeable, Merged;
    if updates == [] {
      hide After;
      LaterReflexive(s);
      assert After(s, updates) == Some(s) by { AfterNothing(s); }
    } else {
      var n := |updates| - 1;
      AfterIsLater(s, updates[..n]);
      var before := After(s, updates[..n]).value;
      MergeMoves(before, updates[n]);
      LaterTransitive(s, before, Merged(before, updates[n]));
    }
  }

  lemma AfterNothing(s: State)
    ensures After(s, []) == Some(s)
  {
  }

  lemma LaterReflexive(s: State)
    ensures Later(s, s)
  {
    hide CountsLater;
    forall k | k in s.maxima { CountsReflexive(s.maxima[k]); }
    CountsReflexive(s.counters);
  }

  lemma ListsTransitive(a: Lists, b: Lists, c: Lists)
    requires ListsLater(a, b) && ListsLater(b, c)
    ensures ListsLater(a, c)
  {
  }

  lemma CountsTransitive(a: Counts, b: Counts, c: Counts)
    requires CountsLater(a, b) && CountsLater(b, c)
    ensures CountsLater(a, c)
  {
  }

  lemma MaximaTransitive(a: map<string, Counts>, b: map<string, Counts>, c: map<string, Counts>)
    requires MaximaLater(a, b) && MaximaLater(b, c)
    ensures MaximaLater(a, c)
  {
    hide CountsLater;
    forall k | k in a { CountsTransitive(a[k], b[k], c[k]); }
  }

  lemma LaterTransitive(a: State, b: State, c: State)
    requires Later(a, b) && Later(b, c)
    ensures Later(a, c)
  {
    hide ListsLater, CountsLater, MaximaLater;
    ListsTransitive(a.uniques, b.uniques, c.uniques);
    ListsTransitive(a.revisions, b.revisions, c.revisions);
    CountsTransitive(a.counters, b.counters, c.counters);
    MaximaTransitive(a.maxima, b.maxima, c.maxima);
  }

  lemma UniquesAbsorb(s: Lists, c: Lists)
    requires UniquesSound(c) && ListsLater(s, c)
    ensures MergeLists(s, c, AppendUnique) == c
  {
    hide AppendUnique, UniqueKeys;
    forall k | k in c { UniqueAbsorbsEcho(Get(s, k, []), c[k]); }
  }

  lemma RevisionsAbsorb(s: Lists, c: Lists)
    requires RevisionsSound(c) && ListsLater(s, c)
    ensures MergeLists(s, c, AppendRevision) == c
  {
    hide AppendRevision, Distinct;
    forall k | k in c { RevisionAbsorbsEcho(Get(s, k, []), c[k]); }
  }

  lemma CountsAbsorb(s: Counts, c: Counts)
    requires CountsLater(s, c) && CountsSound(c)
    ensures MergeMax(s, c) == c
  {
  }

  lemma NothingIsEarlier(c: Counts)
    ensures CountsLater(map[], c)
  {
  }

  lemma MaximaAbsorb(s: map<string, Counts>, c: map<string, Counts>)
    requires MaximaLater(s, c) && MaximaSound(c)
    ensures MergeMaxima(s, c) == c
  {
    hide MergeMax, CountsLater, CountsSound;
    forall k | k in c ensures MergeMax(Get(s, k, map[]), c[k]) == c[k] {
      NothingIsEarlier(c[k]);
      CountsAbsorb(Get(s, k, map[]), c[k]);
    }
  }

  lemma DictsAbsorb(s: map<string, map<string, string>>, c: map<string, map<string, string>>)
    requires DictsLater(s, c)
    ensures MergeDicts(s, c) == c
  {
    forall k | k in c ensures Get(s, k, map[]) + c[k] == c[k] {}
  }

  lemma ChannelsAbsorb(s: State, c: State)
    requires Sound(c) && Later(s, c)
    ensures MergeLists(s.uniques, c.uniques, AppendUnique) == c.uniques
    ensures MergeLists(s.revisions, c.revisions, AppendRevision) == c.revisions
    ensures MergeMax(s.counters, c.counters) == c.counters
    ensures MergeDicts(s.dicts, c.dicts) == c.dicts && MergeMaxima(s.maxima, c.maxima) == c.maxima
    ensures s.once + c.once == c.once && s.plain + c.plain == c.plain
  {
    hide MergeLists, MergeMax, MergeMaxima, MergeDicts;
    hide UniquesSound, RevisionsSound, CountsSound, MaximaSound, ListsLater, CountsLater, MaximaLater, DictsLater;
    UniquesAbsorb(s.uniques, c.uniques);
    RevisionsAbsorb(s.revisions, c.revisions);
    CountsAbsorb(s.counters, c.counters);
    MaximaAbsorb(s.maxima, c.maxima);
    DictsAbsorb(s.dicts, c.dicts);
  }

  /** The seam a parent is shown: legal when the parent had no status or may make the whole jump. */
  predicate SeamAccepted(s: State, c: State) {
    s.status.None? || c.status.None? || CanTransition(s.status.value, c.status.value)
  }

  /** Echo absorption: however a child got from `s` to `c`, merging the whole of `c` back into `s`
      raises nothing exactly when the collapsed status pair is accepted, and then yields `c` itself. */
  lemma {:induction false} EchoIsAbsorbed(s: State, updates: seq<State>)
    requires Sound(s) && After(s, updates).Some?
    ensures var c := After(s, updates).value;
      && (Mergeable(s, c) <==> SeamAccepted(s, c))
      && (Mergeable(s, c) ==> Merged(s, c) == c)
  {
    hide After, MergeLists, MergeMax, MergeDicts, MergeMaxima, Sound, CanTransition;
    hide ListsLater, CountsLater, MaximaLater, DictsLater;
    AfterIsLater(s, updates);
    var c := After(s, updates).value;
    ChannelsAbsorb(s, c);
  }

  /** A child graph starts from what its parent holds: entering copies every channel unchanged. */
  lemma {:induction false} EntryCopies(s: State)
    requires Sound(s)
    ensures Mergeable(UNSET, s) && Merged(UNSET, s) == s
  {
    hide MergeLists, MergeMax, MergeDicts, MergeMaxima, Sound;
    ChannelsAbsorb(UNSET, s);
  }

  /** A subgraph run as one node: entry, its nodes' updates, one collapsed write to the parent. */
  ghost function Nested(s: State, updates: seq<State>): Option<State> {
    if !Mergeable(UNSET, s) then None
    else
      var c := After(Merged(UNSET, s), updates);
      if c.Some? && Mergeable(s, c.value) then Some(Merged(s, c.value)) else None
  }

  /** Nesting equals running the nodes inline, and refuses only at a seam the tables do not list. */
  lemma NestingIsInlining(s: State, updates: seq<State>)
    requires Sound(s)
    ensures Nested(s, updates).Some? <==> After(s, updates).Some? && SeamAccepted(s, After(s, updates).value)
    ensures Nested(s, updates).Some? ==> Nested(s, updates) == After(s, updates)
  {
    hide Mergeable, Merged, After, Sound, SeamAccepted;
    EntryCopies(s);
    if After(s, updates).Some? { EchoIsAbsorbed(s, updates); }
  }
}
