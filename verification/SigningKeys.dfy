/** The stored signing-key record of a remote server, over any run of updates. */
module SigningKeys {
  import opened Orders

  type KeyId = string
  type PublicKey = string
  type Server = string

  datatype OldKey = OldKey(expired: nat, key: PublicKey)

  datatype Record = Record(
    server: Server,
    verify: map<KeyId, PublicKey>,
    retired: map<KeyId, OldKey>,
    signatures: map<Server, map<KeyId, string>>,
    validUntil: nat)

  // ---------------------------------------------------------------- specification

  /** Current keys the new record no longer lists, retired when the previous record ran out. */
  function Withdrawn(prev: Record, verify: map<KeyId, PublicKey>): map<KeyId, OldKey> {
    map id | id in prev.verify && id !in verify :: OldKey(prev.validUntil, prev.verify[id])
  }

  function OriginMerge(prev: Record, update: Record): Record {
    prev.(verify := update.verify,
          retired := prev.retired + Withdrawn(prev, update.verify) + update.retired,
          validUntil := update.validUntil)
  }

  function TrustedMerge(prev: Record, update: Record): Record {
    prev.(verify := prev.verify + update.verify, retired := prev.retired + update.retired, validUntil := update.validUntil)
  }

  function SignaturesOf(m: map<Server, map<KeyId, string>>, server: Server): map<KeyId, string> {
    if server in m then m[server] else map[]
  }

  function MergeSignatures(a: map<Server, map<KeyId, string>>, b: map<Server, map<KeyId, string>>)
    : map<Server, map<KeyId, string>>
  {
    map s | s in a.Keys + b.Keys :: SignaturesOf(a, s) + SignaturesOf(b, s)
  }

  function StorageMerge(prev: Record, update: Record): Record {
    prev.(verify := prev.verify + update.verify,
          retired := prev.retired + update.retired,
          signatures := MergeSignatures(prev.signatures, update.signatures),
          validUntil := if prev.validUntil >= update.validUntil then prev.validUntil else update.validUntil)
  }

  /** An update of the stored record, by where the new keys came from. */
  datatype Update = FromOrigin(keys: Record) | FromTrusted(keys: Record) | ForStorage(keys: Record)

  function Apply(stored: Option<Record>, update: Update): Record {
    match (stored, update)
    case (None, FromOrigin(keys)) => keys
    case (None, FromTrusted(keys)) => keys
    case (None, ForStorage(keys)) => StorageMerge(Record(keys.server, map[], map[], map[], keys.validUntil), keys)
    case (Some(prev), FromOrigin(keys)) => OriginMerge(prev, keys)
    case (Some(prev), FromTrusted(keys)) => TrustedMerge(prev, keys)
    case (Some(prev), ForStorage(keys)) => StorageMerge(prev, keys)
  }

  function ApplyAll(stored: Option<Record>, updates: seq<Update>): Option<Record> {
    if updates == [] then stored
    else Some(Apply(ApplyAll(stored, updates[..|updates| - 1]), updates[|updates| - 1]))
  }

  predicate KeyExists(keys: Record, id: KeyId) {
    id in keys.verify || id in keys.retired
  }

  function ExtractKey(keys: Record, id: KeyId): Option<PublicKey> {
    if id in keys.verify then Some(keys.verify[id]) else if id in keys.retired then Some(keys.retired[id].key) else None
  }

  function MergeOldKeys(keys: Record): Record {
    keys.(verify := keys.verify + map id | id in keys.retired :: keys.retired[id].key)
  }

  /** The keys to accept for an event of the given time; old room versions ignore the validity bound. */
  function FilterKeys(keys: Record, time: nat, ignoreValidity: bool): Option<map<KeyId, PublicKey>> {
    if keys.validUntil > time || ignoreValidity
    then Some(keys.verify + map id | id in keys.retired && keys.retired[id].expired > time :: keys.retired[id].key)
    else None
  }

  /** The filter accepts a key under this ID. */
  predicate Accepted(keys: Record, id: KeyId, time: nat, ignoreValidity: bool) {
    var accepted := FilterKeys(keys, time, ignoreValidity);
    accepted.Some? && id in accepted.value
  }

  // ---------------------------------------------------------------- the updates

  method AddFromOrigin(stored: Option<Record>, update: Record) returns (r: Record)
    ensures r == Apply(stored, FromOrigin(update))
  {
    if stored.None? { return update; }
    var prev := stored.value;
    var retired := prev.retired;
    var todo := prev.verify.Keys;
    while todo != {}
      invariant todo <= prev.verify.Keys
      invariant retired.Keys == prev.retired.Keys + (prev.verify.Keys - todo - update.verify.Keys)
      invariant forall id :: id in retired ==>
        retired[id] == if id in prev.verify && id !in todo && id !in update.verify
                   then OldKey(prev.validUntil, prev.verify[id]) else prev.retired[id]
      decreases todo
    {
      var id :| id in todo;
      todo := todo - {id};
      if id !in update.verify { retired := retired[id := OldKey(prev.validUntil, prev.verify[id])]; }
    }
    assert retired == prev.retired + Withdrawn(prev, update.verify);
    r := prev.(verify := update.verify, retired := retired + update.retired, validUntil := update.validUntil);
  }

  method MergeForStorage(existing: Option<Record>, update: Record) returns (r: Record)
    ensures r == Apply(existing, ForStorage(update))
  {
    var keys := if existing.Some? then existing.value
                else Record(update.server, map[], map[], map[], update.validUntil);
    var signatures := keys.signatures;
    var todo := update.signatures.Keys;
    while todo != {}
      invariant todo <= update.signatures.Keys
      invariant signatures.Keys == keys.signatures.Keys + (update.signatures.Keys - todo)
      invariant forall s :: s in signatures ==>
        signatures[s] == SignaturesOf(keys.signatures, s) + (if s in todo then map[] else SignaturesOf(update.signatures, s))
      decreases todo
    {
      var s :| s in todo;
      todo := todo - {s};
      signatures := signatures[s := SignaturesOf(signatures, s) + update.signatures[s]];
    }
    assert signatures == MergeSignatures(keys.signatures, update.signatures);
    var until := if keys.validUntil >= update.validUntil then keys.validUntil else update.validUntil;
    r := keys.(verify := keys.verify + update.verify, retired := keys.retired + update.retired,
               signatures := signatures, validUntil := until);
  }

  // ---------------------------------------------------------------- whole runs

  /** The first record of a server is stored as received, wherever it comes from. */
  lemma FirstRecordIsAsReceived(keys: Record)
    ensures Apply(None, FromOrigin(keys)) == Apply(None, FromTrusted(keys)) == Apply(None, ForStorage(keys)) == keys
  {
    assert map[] + keys.verify == keys.verify && map[] + keys.retired == keys.retired;
    assert forall s :: s in keys.signatures ==> map[] + keys.signatures[s] == keys.signatures[s];
    assert MergeSignatures(map[], keys.signatures) == keys.signatures;
  }

  /** Whatever updates follow, a known key ID stays known. */
  lemma {:induction false} KnownStaysKnown(stored: Record, updates: seq<Update>, id: KeyId)
    requires KeyExists(stored, id)
    ensures ApplyAll(Some(stored), updates).Some? && KeyExists(ApplyAll(Some(stored), updates).value, id)
    decreases |updates|
  {
    if updates != [] { KnownStaysKnown(stored, updates[..|updates| - 1], id); }
  }

  /** The update publishes this key under this ID, as a current or as an old one. */
  predicate Publishes(keys: Record, id: KeyId, key: PublicKey) {
    (id in keys.verify && keys.verify[id] == key) || (id in keys.retired && keys.retired[id].key == key)
  }

  ghost predicate PublishedBy(updates: seq<Update>, id: KeyId, key: PublicKey) {
    exists i :: 0 <= i < |updates| && Publishes(updates[i].keys, id, key)
  }

  /** No key is made up: every key of the record was published under its ID by some update. */
  lemma {:induction false} EveryKeyWasPublished(updates: seq<Update>, id: KeyId, key: PublicKey)
    requires ApplyAll(None, updates).Some? && Publishes(ApplyAll(None, updates).value, id, key)
    ensures PublishedBy(updates, id, key)
    decreases |updates|
  {
    var front, last := updates[..|updates| - 1], updates[|updates| - 1];
    if Publishes(last.keys, id, key) {
      assert updates[|updates| - 1] == last;
    } else {
      EveryKeyWasPublished(front, id, key);
      var i :| 0 <= i < |front| && Publishes(front[i].keys, id, key);
      assert updates[i] == front[i];
    }
  }

  /** Some update lists the key as current, and no later refresh from the origin leaves it out. */
  ghost predicate Relisted(updates: seq<Update>, id: KeyId) {
    exists i :: 0 <= i < |updates| && id in updates[i].keys.verify && KeptAfter(updates, id, i)
  }

  ghost predicate KeptAfter(updates: seq<Update>, id: KeyId, i: nat) {
    forall j :: i < j < |updates| && updates[j].FromOrigin? ==> id in updates[j].keys.verify
  }

  /** A key that was not current becomes current if and only if it is relisted, by whatever source. */
  lemma {:induction false} CurrentAgainIff(stored: Record, updates: seq<Update>, id: KeyId)
    requires id !in stored.verify
    ensures ApplyAll(Some(stored), updates).Some?
    ensures id in ApplyAll(Some(stored), updates).value.verify <==> Relisted(updates, id)
    decreases |updates|
  {
    if updates != [] {
      var front, last := updates[..|updates| - 1], updates[|updates| - 1];
      CurrentAgainIff(stored, front, id);
      if id in last.keys.verify {
        assert KeptAfter(updates, id, |updates| - 1);
      } else {
        RelistedEarlier(updates, id);
      }
    }
  }

  lemma RelistedEarlier(updates: seq<Update>, id: KeyId)
    requires updates != [] && id !in updates[|updates| - 1].keys.verify
    ensures Relisted(updates, id) <==> !updates[|updates| - 1].FromOrigin? && Relisted(updates[..|updates| - 1], id)
  {
  }

  /**
   * The expiry the record holds for a retired key after a run: the one supplied last, or the
   * validity bound the record had when the origin last withdrew the key, whichever came later.
   */
  function Recorded(stored: Record, updates: seq<Update>, id: KeyId): OldKey
    requires id in stored.retired
  {
    if updates == [] then stored.retired[id]
    else
      var front, last := updates[..|updates| - 1], updates[|updates| - 1];
      var before := ApplyAll(Some(stored), front);
      if id in last.keys.retired then last.keys.retired[id]
      else if last.FromOrigin? && before.Some? && id in before.value.verify && id !in last.keys.verify
      then OldKey(before.value.validUntil, before.value.verify[id])
      else Recorded(stored, front, id)
  }

  /** A retired key keeps an entry over any run, with the expiry recorded last. */
  lemma {:induction false} RetiredKeepsRecord(stored: Record, updates: seq<Update>, id: KeyId)
    requires id in stored.retired
    ensures ApplyAll(Some(stored), updates).Some?
    ensures var after := ApplyAll(Some(stored), updates).value;
      id in after.retired && after.retired[id] == Recorded(stored, updates, id)
    decreases |updates|
  {
    if updates != [] { RetiredKeepsRecord(stored, updates[..|updates| - 1], id); }
  }

  /** The record after the origin has withdrawn `id`, and the run that followed. */
  function AfterWithdrawal(prev: Record, update: Record, updates: seq<Update>): Option<Record> {
    ApplyAll(Some(OriginMerge(prev, update)), updates)
  }

  /**
   * A key the origin withdraws is retired, at the previous validity bound or when the origin says,
   * and over any run it keeps its last recorded expiry; it is current again iff it is relisted.
   */
  lemma WithdrawnStaysRetired(prev: Record, update: Record, updates: seq<Update>, id: KeyId)
    requires id in prev.verify && id !in update.verify
    ensures AfterWithdrawal(prev, update, updates).Some?
    ensures OriginMerge(prev, update).retired[id]
         == (if id in update.retired then update.retired[id] else OldKey(prev.validUntil, prev.verify[id]))
    ensures var after := AfterWithdrawal(prev, update, updates).value;
      && id in after.retired && after.retired[id] == Recorded(OriginMerge(prev, update), updates, id)
      && (id in after.verify <==> Relisted(updates, id))
  {
    RetiredKeepsRecord(OriginMerge(prev, update), updates, id);
    CurrentAgainIff(OriginMerge(prev, update), updates, id);
  }

  /**
   * Over any run, a withdrawn key is accepted for a time if and only if the record is usable at
   * all and the time is before the expiry recorded last, or the key has been relisted.
   */
  lemma WithdrawnAcceptedIff(prev: Record, update: Record, updates: seq<Update>, id: KeyId, time: nat, ignoreValidity: bool)
    requires id in prev.verify && id !in update.verify
    ensures AfterWithdrawal(prev, update, updates).Some?
    ensures var after := AfterWithdrawal(prev, update, updates).value;
      Accepted(after, id, time, ignoreValidity) <==>
        && (after.validUntil > time || ignoreValidity)
        && (Relisted(updates, id) || time < Recorded(OriginMerge(prev, update), updates, id).expired)
  {
    WithdrawnStaysRetired(prev, update, updates, id);
    MergedLookupIgnoresExpiryIff(AfterWithdrawal(prev, update, updates).value, id, time, ignoreValidity);
  }

  /** It is accepted before that expiry only, if and only if it is not relisted or the record runs out by then. */
  lemma WithdrawnAcceptedOnlyBeforeExpiry(prev: Record, update: Record, updates: seq<Update>, id: KeyId, ignoreValidity: bool)
    requires id in prev.verify && id !in update.verify
    ensures AfterWithdrawal(prev, update, updates).Some?
    ensures var after := AfterWithdrawal(prev, update, updates).value;
      var expiry := Recorded(OriginMerge(prev, update), updates, id).expired;
      (forall time: nat :: Accepted(after, id, time, ignoreValidity) ==> time < expiry) <==>
        !Relisted(updates, id) || (!ignoreValidity && after.validUntil <= expiry)
  {
    WithdrawnStaysRetired(prev, update, updates, id);
    var after := AfterWithdrawal(prev, update, updates).value;
    var expiry := Recorded(OriginMerge(prev, update), updates, id).expired;
    forall time: nat {
      WithdrawnAcceptedIff(prev, update, updates, id, time, ignoreValidity);
    }
    if Relisted(updates, id) && (ignoreValidity || after.validUntil > expiry) {
      assert Accepted(after, id, expiry, ignoreValidity);
    }
  }

  /** What the run supplies as old key for `id`, last update first; the record's own entry otherwise. */
  function LatestOld(updates: seq<Update>, id: KeyId, before: OldKey): OldKey {
    if updates == [] then before
    else if id in updates[|updates| - 1].keys.retired then updates[|updates| - 1].keys.retired[id]
    else LatestOld(updates[..|updates| - 1], id, before)
  }

  ghost predicate NeverCurrent(updates: seq<Update>, id: KeyId) {
    forall i :: 0 <= i < |updates| ==> id !in updates[i].keys.verify
  }

  /** While no update lists the key as current, the expiry recorded is the one supplied last. */
  lemma {:induction false} UnlistedKeepsLatest(stored: Record, updates: seq<Update>, id: KeyId)
    requires id in stored.retired && id !in stored.verify && NeverCurrent(updates, id)
    ensures !Relisted(updates, id) && Recorded(stored, updates, id) == LatestOld(updates, id, stored.retired[id])
    decreases |updates|
  {
    if updates != [] {
      var front := updates[..|updates| - 1];
      assert NeverCurrent(front, id);
      UnlistedKeepsLatest(stored, front, id);
      CurrentAgainIff(stored, front, id);
    }
  }

  /** A run where a withdrawn key is accepted after its recorded expiry: a trusted server still lists it. */
  lemma RelistedKeyOutlivesItsExpiry()
    ensures var prev := Record("s", map["k" := "K"], map[], map[], 10);
      var update := Record("s", map[], map[], map[], 20);
      var updates := [FromTrusted(Record("s", map["k" := "K"], map[], map[], 30))];
      && AfterWithdrawal(prev, update, updates).Some?
      && Recorded(OriginMerge(prev, update), updates, "k").expired == 10
      && Accepted(AfterWithdrawal(prev, update, updates).value, "k", 25, false)
  {
    var prev := Record("s", map["k" := "K"], map[], map[], 10);
    var update := Record("s", map[], map[], map[], 20);
    var updates := [FromTrusted(Record("s", map["k" := "K"], map[], map[], 30))];
    assert updates[..0] == [] && OriginMerge(prev, update).retired["k"] == OldKey(10, "K");
    assert updates[0].keys.verify == map["k" := "K"];
    assert KeptAfter(updates, "k", 0);
    WithdrawnAcceptedIff(prev, update, updates, "k", 25, false);
  }

  /** Right after an origin refresh the current keys are the origin's and no others. */
  lemma {:induction false} OriginDecidesCurrentKeys(stored: Option<Record>, updates: seq<Update>, update: Record)
    ensures ApplyAll(stored, updates + [FromOrigin(update)]).Some?
    ensures var after := ApplyAll(stored, updates + [FromOrigin(update)]).value;
      after.verify == update.verify && after.validUntil == update.validUntil
  {
    OneMoreUpdate(stored, updates, FromOrigin(update));
  }

  /**
   * The two look-ups of a key by ID agree unless it is listed both as current and as old with
   * different keys: one prefers the current key, the other the old one.
   */
  lemma LookupsAgreeIff(keys: Record, id: KeyId)
    ensures var merged := MergeOldKeys(keys).verify;
      && (id in merged <==> KeyExists(keys, id))
      && (ExtractKey(keys, id) == (if id in merged then Some(merged[id]) else None)
          <==> !(id in keys.verify && id in keys.retired && keys.verify[id] != keys.retired[id].key))
  {
  }

  /** A run after which they differ: a key withdrawn by its origin is listed again, with another value, by a trusted server. */
  lemma {:induction false} LookupsDiffer()
    ensures var updates := [
        FromOrigin(Record("s", map["k" := "K1"], map[], map[], 10)),
        FromOrigin(Record("s", map[], map[], map[], 20)),
        FromTrusted(Record("s", map["k" := "K2"], map[], map[], 30))];
      && var after := ApplyAll(None, updates);
      && after.Some? && ExtractKey(after.value, "k") == Some("K2")
      && "k" in MergeOldKeys(after.value).verify && MergeOldKeys(after.value).verify["k"] == "K1"
  {
    var first := Record("s", map["k" := "K1"], map[], map[], 10);
    var second := Record("s", map[], map[], map[], 20);
    var third := Record("s", map["k" := "K2"], map[], map[], 30);
    OneMoreUpdate(None, [], FromOrigin(first));
    OneMoreUpdate(None, [FromOrigin(first)], FromOrigin(second));
    OneMoreUpdate(None, [FromOrigin(first), FromOrigin(second)], FromTrusted(third));
    assert OriginMerge(first, second).retired["k"] == OldKey(10, "K1");
  }

  lemma {:induction false} OneMoreUpdate(stored: Option<Record>, updates: seq<Update>, update: Update)
    ensures ApplyAll(stored, updates + [update]) == Some(Apply(ApplyAll(stored, updates), update))
  {
    var all := updates + [update];
    assert all[..|all| - 1] == updates;
  }

  /**
   * The merged look-up ignores expiry: it has a key that the filter rejects for some time exactly
   * when the record has run out by then, or the key is old, expired and no longer current. Where
   * both have a key under the ID they differ exactly when an expired old key hides the current one.
   */
  lemma MergedLookupIgnoresExpiryIff(keys: Record, id: KeyId, time: nat, ignoreValidity: bool)
    requires KeyExists(keys, id)
    ensures id in MergeOldKeys(keys).verify
    ensures var accepted := FilterKeys(keys, time, ignoreValidity);
      !(accepted.Some? && id in accepted.value) <==>
        (keys.validUntil <= time && !ignoreValidity) || (id !in keys.verify && keys.retired[id].expired <= time)
    ensures var accepted := FilterKeys(keys, time, ignoreValidity);
      accepted.Some? && id in accepted.value ==>
        (accepted.value[id] != MergeOldKeys(keys).verify[id] <==>
          id in keys.retired && keys.retired[id].expired <= time && keys.retired[id].key != keys.verify[id])
  {
  }

  /** The current key under an ID is the one listed as current most recently, whoever listed it. */
  lemma {:induction false} CurrentKeyIsLatestListed(stored: Option<Record>, updates: seq<Update>, id: KeyId, i: nat)
    requires i < |updates| && id in updates[i].keys.verify
    requires forall j :: i < j < |updates| ==> id !in updates[j].keys.verify
    ensures ApplyAll(stored, updates).Some?
    ensures var after := ApplyAll(stored, updates).value;
      id in after.verify ==> after.verify[id] == updates[i].keys.verify[id]
    decreases |updates|
  {
    if i < |updates| - 1 { CurrentKeyIsLatestListed(stored, updates[..|updates| - 1], id, i); }
  }

  function LargestBound(updates: seq<Update>, least: nat): nat {
    if updates == [] then least
    else
      var before := LargestBound(updates[..|updates| - 1], least);
      if updates[|updates| - 1].keys.validUntil > before then updates[|updates| - 1].keys.validUntil else before
  }

  /** The record is valid until the largest bound seen since it was last refreshed by a server. */
  lemma {:induction false} ValidSinceLastRefresh(stored: Option<Record>, before: seq<Update>, refresh: Update, merges: seq<Update>)
    requires !refresh.ForStorage? && forall i :: 0 <= i < |merges| ==> merges[i].ForStorage?
    ensures var after := ApplyAll(stored, before + [refresh] + merges);
      after.Some? && after.value.validUntil == LargestBound(merges, refresh.keys.validUntil)
    decreases |merges|
  {
    var all := before + [refresh] + merges;
    if merges == [] {
      assert all[..|all| - 1] == before;
    } else {
      ValidSinceLastRefresh(stored, before, refresh, merges[..|merges| - 1]);
      assert all[..|all| - 1] == before + [refresh] + merges[..|merges| - 1];
      assert merges[|merges| - 1].ForStorage?;
    }
  }

  /** The signature the run supplies last for a server's key by a storage merge; the record's own otherwise. */
  function LatestSignature(updates: seq<Update>, server: Server, id: KeyId, before: string): string {
    if updates == [] then before
    else
      var last := updates[|updates| - 1];
      if last.ForStorage? && id in SignaturesOf(last.keys.signatures, server)
      then SignaturesOf(last.keys.signatures, server)[id]
      else LatestSignature(updates[..|updates| - 1], server, id, before)
  }

  /** Over any run no signature is dropped, and each is the one a storage merge supplied last. */
  lemma {:induction false} StorageKeepsSignatures(stored: Record, updates: seq<Update>, server: Server, id: KeyId)
    requires server in stored.signatures && id in stored.signatures[server]
    ensures ApplyAll(Some(stored), updates).Some?
    ensures var after := ApplyAll(Some(stored), updates).value;
      && server in after.signatures && id in after.signatures[server]
      && after.signatures[server][id] == LatestSignature(updates, server, id, stored.signatures[server][id])
    decreases |updates|
  {
    if updates != [] { StorageKeepsSignatures(stored, updates[..|updates| - 1], server, id); }
  }

  /** A storage merge takes over every signature it is given, and the record stays that of its server. */
  lemma StorageAddsSignatures(stored: Record, keys: Record, server: Server, id: KeyId)
    requires server in keys.signatures && id in keys.signatures[server]
    ensures var after := Apply(Some(stored), ForStorage(keys));
      && after.server == stored.server
      && server in after.signatures && id in after.signatures[server] && after.signatures[server][id] == keys.signatures[server][id]
  {
  }
}
