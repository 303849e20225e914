/** Pairing and trust: who is trusted with which secret, after any sequence of operations and
    failed saves, and what the persistent store holds meanwhile. */
module Trust {
  import opened Base
  import opened Text
  import opened Protocol
  import opened PairingCode

  type Secret = s: seq<byte> | |s| == 32 witness seq(32, _ => 0)

  const PAIRING_TTL_SECONDS: nat := 300

  datatype Advertisement = Advertisement(id: string, alias: string, address: string, apiVersion: nat)

  datatype PeerRecord = PeerRecord(advertisement: Advertisement, trusted: bool)

  datatype PendingPairing = PendingPairing(code: string, secret: Secret, expiresAt: nat)

  datatype PairedPeer = PairedPeer(id: string, secret: Secret)

  datatype Registry = Registry(
    peers: map<string, PeerRecord>, trusted: map<string, PairedPeer>, pending: map<string, PendingPairing>)

  const EMPTY: Registry := Registry(map[], map[], map[])

  datatype PairingError = InvalidPeerId | InvalidCode | SecretError(e: ChannelError)

  function SaturatingAdd(a: nat, b: nat): nat { if a + b >= U64_LIMIT then U64_LIMIT - 1 else a + b }

  // ---------- secrets as text ----------

  function ParseSecret(value: string): Result<Secret, ChannelError> {
    if |value| == 64 && forall c :: c in value ==> IsHexDigit(c) then Ok(DecodeHex(value))
    else Err(InvalidPairingSecret)
  }

  lemma SecretRoundTrip(s: Secret)
    ensures ParseSecret(ToHex(s)) == Ok(s)
  {
    HexRoundTrip(s);
  }

  /** Exactly the texts of 64 hexadecimal digits of either case are secrets, and a secret's own text is
      the one it was read from, its letters lowered. */
  lemma SecretsExactly(value: string)
    ensures ParseSecret(value).Ok? <==>
              |value| == 64 && forall c :: c in value ==> '0' <= c <= '9' || 'a' <= c <= 'f' || 'A' <= c <= 'F'
    ensures ParseSecret(value).Ok? ==> ToHex(ParseSecret(value).value) == LowerAscii(value)
    ensures ParseSecret(value).Err? ==> ParseSecret(value) == Err(InvalidPairingSecret)
  {
    hide DecodeHex, ToHex, LowerAscii;
    if ParseSecret(value).Ok? {
      DecodedReadsBack(value);
    }
  }

  lemma NothingDecoded()
    ensures DecodeHex("") == []
  {
  }

  /** from_hex: fills the 32 bytes pair by pair. */
  method FromHex(value: string) returns (r: Result<Secret, ChannelError>)
    ensures r == ParseSecret(value)
  {
    hide DecodeHex, HexValue;
    if |value| != 64 || exists c :: c in value && !IsHexDigit(c) {
      return Err(InvalidPairingSecret);
    }
    NothingDecoded();
    assert value[..0] == "";
    var bytes := new byte[32];
    for i := 0 to 32
      invariant bytes[..i] == DecodeHex(value[..2 * i])
    {
      var c, d := value[2 * i], value[2 * i + 1];
      assert c in value && d in value && forall x :: x in value[..2 * i] ==> x in value;
      DecodeHexSnoc(value[..2 * i], c, d);
      assert value[..2 * i] + [c, d] == value[..2 * (i + 1)];
      bytes[i] := 16 * HexValue(c) + HexValue(d);
    }
    assert value[..64] == value && bytes[..32] == bytes[..];
    return Ok(bytes[..]);
  }

  // ---------- the registry ----------

  function AdvertiseStep(r: Registry, ad: Advertisement): Registry {
    r.(peers := r.peers[ad.id := PeerRecord(ad, ad.id in r.trusted)])
  }

  /** What the random source gives while a code and then a secret are generated. */
  datatype Random = Random(draws: seq<u32>, secret: Option<Secret>)

  /** The code and secret a request would leave pending: those supplied, or those generated. */
  function Material(supplied: Option<(string, Secret)>, random: Random): (r: Result<(string, Secret), PairingError>)
    ensures r.Ok? ==> ValidCode(r.value.0)
  {
    match supplied
    case Some(m) => if ValidCode(m.0) then Ok(m) else Err(InvalidCode)
    case None =>
      match CodeFrom(random.draws)
      case Err(e) => Err(SecretError(e))
      case Ok(code) =>
        match random.secret
        case Some(secret) => Ok((code, secret))
        case None => Err(SecretError(ChannelError.Random))
  }

  function RequestStep(r: Registry, ad: Advertisement, now: nat, supplied: Option<(string, Secret)>,
                       random: Random): (Registry, Result<(string, Secret), PairingError>) {
    if IsBlank(ad.id) then (r, Err(InvalidPeerId))
    else
      var r1 := AdvertiseStep(r, ad);
      var m := Material(supplied, random);
      if m.Err? then (r1, m)
      else
        var expires := SaturatingAdd(now, PAIRING_TTL_SECONDS);
        (r1.(pending := r1.pending[ad.id := PendingPairing(m.value.0, m.value.1, expires)]), m)
  }

  function ConfirmStep(r: Registry, id: string, code: string, now: nat): (Registry, bool) {
    if id !in r.pending then (r, false)
    else
      var p := r.pending[id];
      if now >= p.expiresAt then (r.(pending := r.pending - {id}), false)
      else if p.code != code then (r, false)
      else
        var r1 := r.(pending := r.pending - {id});
        if id !in r.peers then (r1, false)
        else (r1.(peers := r1.peers[id := r1.peers[id].(trusted := true)],
                  trusted := r1.trusted[id := PairedPeer(id, p.secret)]), true)
  }

  function RevokeStep(r: Registry, id: string): (Registry, bool) {
    (Registry(if id in r.peers then r.peers[id := r.peers[id].(trusted := false)] else r.peers,
              r.trusted - {id}, r.pending - {id}),
     id in r.trusted)
  }

  /** Flags agree with the trusted map, everything trusted or pending is a known, named peer, and
      every pending code is six digits. */
  ghost predicate Consistent(r: Registry) {
    && (forall id :: id in r.peers ==> r.peers[id].advertisement.id == id && (r.peers[id].trusted <==> id in r.trusted))
    && (forall id :: id in r.trusted ==> id in r.peers && r.trusted[id].id == id && !IsBlank(id))
    && (forall id :: id in r.pending ==> id in r.peers && !IsBlank(id) && ValidCode(r.pending[id].code))
  }

  lemma AdvertiseKeeps(r: Registry, ad: Advertisement)
    requires Consistent(r)
    ensures Consistent(AdvertiseStep(r, ad))
  {
  }

  lemma RequestKeeps(r: Registry, ad: Advertisement, now: nat, supplied: Option<(string, Secret)>,
                     random: Random)
    requires Consistent(r)
    ensures Consistent(RequestStep(r, ad, now, supplied, random).0)
  {
    hide IsBlank, Material, AdvertiseStep, SaturatingAdd;
    AdvertiseKeeps(r, ad);
    assert ad.id in AdvertiseStep(r, ad).peers && AdvertiseStep(r, ad).pending == r.pending by {
      AdvertiseAdds(r, ad);
    }
  }

  lemma AdvertiseAdds(r: Registry, ad: Advertisement)
    ensures ad.id in AdvertiseStep(r, ad).peers
    ensures AdvertiseStep(r, ad).pending == r.pending && AdvertiseStep(r, ad).trusted == r.trusted
  {
  }

  lemma ConfirmKeeps(r: Registry, id: string, code: string, now: nat)
    requires Consistent(r)
    ensures Consistent(ConfirmStep(r, id, code, now).0)
  {
    hide IsBlank;
  }

  lemma RevokeKeeps(r: Registry, id: string)
    requires Consistent(r)
    ensures Consistent(RevokeStep(r, id).0)
  {
    hide IsBlank;
  }

  /** A live code that matches always confirms: the branch for an unknown peer cannot be reached, and
      the peer the source then builds has an acceptable identifier. */
  lemma MatchingCodeConfirms(r: Registry, id: string, now: nat)
    requires Consistent(r) && id in r.pending && now < r.pending[id].expiresAt
    ensures !IsBlank(id) && id in r.peers
    ensures var (r', ok) := ConfirmStep(r, id, r.pending[id].code, now);
            ok && id !in r'.pending && id in r'.trusted && r'.trusted[id].secret == r.pending[id].secret
  {
  }

  // ---------- persistence ----------

  datatype Stored = Stored(record: PeerRecord, pairingSecret: string)

  datatype StoreError = InvalidSecret

  /** Which step of a file save the system refuses, if any. */
  datatype SaveFault = SaveOk | MkdirFails | OpenFails | WriteFails | SyncFails | RenameFails | ChmodFails

  function SecretTexts(trusted: map<string, PairedPeer>): map<string, string> {
    map id | id in trusted :: ToHex(trusted[id].secret)
  }

  /** The store's contents by peer. */
  function Saved(records: seq<Stored>): map<string, string> {
    if records == [] then map[]
    else
      var last := records[|records| - 1];
      Saved(records[..|records| - 1])[last.record.advertisement.id := last.pairingSecret]
  }

  function IdOf(stored: Stored): string { stored.record.advertisement.id }

  function IdsOf(records: seq<Stored>): set<string> {
    if records == [] then {} else IdsOf(records[..|records| - 1]) + {IdOf(records[|records| - 1])}
  }

  predicate NoRepeat(records: seq<Stored>) {
    records != [] ==>
      IdOf(records[|records| - 1]) !in IdsOf(records[..|records| - 1]) && NoRepeat(records[..|records| - 1])
  }

  /** The record a registry stores for one trusted peer. */
  predicate StoredFrom(stored: Stored, r: Registry) {
    var id := IdOf(stored);
    id in r.trusted && id in r.peers && stored == Stored(r.peers[id], ToHex(r.trusted[id].secret))
  }

  /** One record per trusted peer, in any order, each as the registry has it. */
  ghost predicate Lists(records: seq<Stored>, r: Registry) {
    && NoRepeat(records)
    && (forall i :: 0 <= i < |records| ==> StoredFrom(records[i], r))
    && IdsOf(records) == r.trusted.Keys
  }

  /** load_trusted_peers, record by record. */
  function RestoreStep(r: Registry, records: seq<Stored>): Result<Registry, StoreError>
    decreases |records|
  {
    if records == [] then Ok(r)
    else
      var stored := records[0];
      var id := stored.record.advertisement.id;
      var secret := ParseSecret(stored.pairingSecret);
      if !stored.record.trusted || secret.Err? || IsBlank(id) || id in r.trusted then Err(InvalidSecret)
      else RestoreStep(r.(trusted := r.trusted[id := PairedPeer(id, secret.value)],
                          peers := r.peers[id := stored.record]),
                       records[1..])
  }

  lemma {:induction false} SavedFrom(records: seq<Stored>, r: Registry)
    requires forall i :: 0 <= i < |records| ==> StoredFrom(records[i], r)
    ensures Saved(records) == map id | id in IdsOf(records) && id in r.trusted :: ToHex(r.trusted[id].secret)
    ensures IdsOf(records) <= r.trusted.Keys
  {
    hide ToHex;
    if records != [] {
      var last := |records| - 1;
      SavedFrom(records[..last], r);
      assert StoredFrom(records[last], r);
    }
  }

  /** Listing the trusted peers saves exactly the registry's secrets. */
  lemma ListingSavesSecrets(records: seq<Stored>, r: Registry)
    requires Lists(records, r)
    ensures Saved(records) == SecretTexts(r.trusted)
  {
    SavedFrom(records, r);
  }

  lemma {:induction false} PrefixHasNoRepeat(records: seq<Stored>, k: nat)
    requires NoRepeat(records) && k < |records|
    ensures IdOf(records[k]) !in IdsOf(records[..k])
    ensures IdsOf(records[..k + 1]) == IdsOf(records[..k]) + {IdOf(records[k])}
    decreases |records|
  {
    assert records[..k + 1][..k] == records[..k];
    if k < |records| - 1 {
      var shorter := records[..|records| - 1];
      assert shorter[..k] == records[..k];
      PrefixHasNoRepeat(shorter, k);
    }
  }

  /** What a registry holds of the peers in `ids`. */
  function Part(r: Registry, ids: set<string>): Registry {
    Registry(map id | id in ids && id in r.peers :: r.peers[id],
             map id | id in ids && id in r.trusted :: r.trusted[id],
             map[])
  }

  lemma RestoreOne(r: Registry, ids: set<string>, records: seq<Stored>)
    requires Consistent(r) && records != [] && StoredFrom(records[0], r) && IdOf(records[0]) !in ids
    ensures RestoreStep(Part(r, ids), records) == RestoreStep(Part(r, ids + {IdOf(records[0])}), records[1..])
  {
    hide IsBlank, ToHex, ParseSecret;
    var id := IdOf(records[0]);
    var acc := Part(r, ids);
    SecretRoundTrip(r.trusted[id].secret);
    assert PairedPeer(id, r.trusted[id].secret) == r.trusted[id];
    assert acc.(trusted := acc.trusted[id := r.trusted[id]], peers := acc.peers[id := r.peers[id]])
        == Part(r, ids + {id});
  }

  lemma {:induction false} RestoreListed(r: Registry, records: seq<Stored>, k: nat)
    requires Lists(records, r) && Consistent(r) && k <= |records|
    ensures RestoreStep(Part(r, IdsOf(records[..k])), records[k..]) == Ok(Part(r, r.trusted.Keys))
    decreases |records| - k
  {
    hide Part, StoredFrom;
    if k == |records| {
      assert records[..k] == records;
    } else {
      hide RestoreStep;
      assert records[k..][0] == records[k] && records[k..][1..] == records[k + 1..];
      PrefixHasNoRepeat(records, k);
      RestoreOne(r, IdsOf(records[..k]), records[k..]);
      RestoreListed(r, records, k + 1);
    }
  }

  /** A restart rebuilds exactly the trusted peers that were saved, and forgets every pending code. */
  lemma RestartRestoresTrust(r: Registry, records: seq<Stored>)
    requires Consistent(r) && Lists(records, r)
    ensures RestoreStep(EMPTY, records) == Ok(Part(r, r.trusted.Keys))
    ensures Part(r, r.trusted.Keys).trusted == r.trusted && Part(r, r.trusted.Keys).pending == map[]
    ensures Consistent(Part(r, r.trusted.Keys))
  {
    hide IsBlank, RestoreStep, Lists;
    RestoreListed(r, records, 0);
    assert records[0..] == records && IdsOf(records[..0]) == {};
    assert Part(r, {}) == EMPTY;
  }

  /** A record that loads: trusted, with a readable secret and a named peer. */
  predicate Loadable(stored: Stored) {
    stored.record.trusted && ParseSecret(stored.pairingSecret).Ok? && !IsBlank(IdOf(stored))
  }

  /** The registry with one loadable record added. */
  function Loaded(r: Registry, stored: Stored): Registry
    requires Loadable(stored)
  {
    r.(trusted := r.trusted[IdOf(stored) := PairedPeer(IdOf(stored), ParseSecret(stored.pairingSecret).value)],
       peers := r.peers[IdOf(stored) := stored.record])
  }

  lemma LoadedKeeps(r: Registry, stored: Stored)
    requires Consistent(r) && Loadable(stored)
    ensures Consistent(Loaded(r, stored))
  {
    hide IsBlank, ParseSecret, ValidCode;
  }

  /** Any stored contents load exactly when every record is loadable and no peer appears twice, and
      what loads is a consistent registry with those peers added. */
  lemma {:induction false} RestoreAcceptsExactly(r: Registry, records: seq<Stored>)
    requires Consistent(r)
    ensures RestoreStep(r, records).Ok? <==>
              && (forall i :: 0 <= i < |records| ==> Loadable(records[i]) && IdOf(records[i]) !in r.trusted)
              && (forall i, j :: 0 <= i < j < |records| ==> IdOf(records[i]) != IdOf(records[j]))
    ensures RestoreStep(r, records).Ok? ==>
              && Consistent(RestoreStep(r, records).value)
              && RestoreStep(r, records).value.pending == r.pending
    decreases |records|
  {
    hide IsBlank, ParseSecret, Consistent;
    if records != [] {
      var stored, rest := records[0], records[1..];
      var id := IdOf(stored);
      if Loadable(stored) && id !in r.trusted {
        var next := Loaded(r, stored);
        LoadedKeeps(r, stored);
        RestoreAcceptsExactly(next, rest);
        assert forall i :: 0 < i < |records| ==> records[i] == rest[i - 1];
        assert forall i :: 0 <= i < |rest| ==> rest[i] == records[i + 1];
      }
    }
  }

  predicate Mentions(records: seq<Stored>, id: string) { exists i :: 0 <= i < |records| && IdOf(records[i]) == id }

  /** What is loaded: each record with its own secret under its own peer, and nothing else. */
  lemma {:induction false} LoadedExactly(r: Registry, records: seq<Stored>)
    requires Consistent(r) && RestoreStep(r, records).Ok?
    ensures var r' := RestoreStep(r, records).value;
            && (forall i :: 0 <= i < |records| ==>
                  var id := IdOf(records[i]);
                  && id in r'.trusted && id in r'.peers && r'.peers[id] == records[i].record
                  && ParseSecret(records[i].pairingSecret) == Ok(r'.trusted[id].secret) && r'.trusted[id].id == id)
            && (forall id :: !Mentions(records, id) ==>
                  && (id in r'.trusted <==> id in r.trusted) && (id in r.trusted ==> r'.trusted[id] == r.trusted[id])
                  && (id in r'.peers <==> id in r.peers) && (id in r.peers ==> r'.peers[id] == r.peers[id]))
            && r'.pending == r.pending
    decreases |records|
  {
    hide IsBlank, ParseSecret, Consistent;
    if records != [] {
      var stored, rest := records[0], records[1..];
      RestoreAcceptsExactly(r, records);
      LoadedKeeps(r, stored);
      var next := Loaded(r, stored);
      LoadedExactly(next, rest);
      assert forall i :: 0 < i < |records| ==> records[i] == rest[i - 1];
      forall id | !Mentions(records, id) ensures !Mentions(rest, id) && id != IdOf(stored) {
        forall i | 0 <= i < |rest| ensures IdOf(rest[i]) != id {
          assert rest[i] == records[i + 1];
        }
      }
      assert !Mentions(rest, IdOf(stored));
    }
  }

  // ---------- the registry and the daemon as objects ----------

  class PeerRegistry {
    var peers: map<string, PeerRecord>
    var trusted: map<string, PairedPeer>
    var pending: map<string, PendingPairing>

    constructor ()
      ensures State() == EMPTY
    {
      peers, trusted, pending := map[], map[], map[];
    }

    function State(): Registry
      reads this
    {
      Registry(peers, trusted, pending)
    }

    method Advertise(ad: Advertisement)
      modifies this`peers
      ensures State() == AdvertiseStep(old(State()), ad)
    {
      var known := ad.id in trusted;
      peers := peers[ad.id := PeerRecord(ad, known)];
    }

    method RequestPairing(ad: Advertisement, now: nat, supplied: Option<(string, Secret)>,
                          random: Random) returns (r: Result<(string, Secret), PairingError>)
      modifies this
      ensures (State(), r) == RequestStep(old(State()), ad, now, supplied, random)
    {
      if IsBlank(ad.id) {
        return Err(InvalidPeerId);
      }
      Advertise(ad);
      r := NewMaterial(supplied, random);
      if r.Ok? {
        var (code, secret) := r.value;
        pending := pending[ad.id := PendingPairing(code, secret, SaturatingAdd(now, PAIRING_TTL_SECONDS))];
      }
    }

    /** Checks a supplied code, or draws a code and then a secret. */
    static method NewMaterial(supplied: Option<(string, Secret)>, random: Random)
      returns (r: Result<(string, Secret), PairingError>)
      ensures r == Material(supplied, random)
    {
      hide ValidCode, CodeFrom;
      match supplied
      case Some(m) =>
        r := if ValidCode(m.0) then Ok(m) else Err(InvalidCode);
      case None =>
        var code := NewPairingCode(random.draws);
        if code.Err? {
          return Err(SecretError(code.error));
        }
        r := match random.secret
             case Some(secret) => Ok((code.value, secret))
             case None => Err(SecretError(ChannelError.Random));
    }

    method ConfirmPairing(id: string, code: string, now: nat) returns (ok: bool)
      modifies this
      ensures (State(), ok) == ConfirmStep(old(State()), id, code, now)
    {
      if id !in pending {
        return false;
      }
      var p := pending[id];
      if now >= p.expiresAt || p.code != code {
        if now >= p.expiresAt {
          pending := pending - {id};
        }
        return false;
      }
      pending := pending - {id};
      if id !in peers {
        return false;
      }
      peers := peers[id := peers[id].(trusted := true)];
      trusted := trusted[id := PairedPeer(id, p.secret)];
      return true;
    }

    method Revoke(id: string) returns (removed: bool)
      modifies this
      ensures (State(), removed) == RevokeStep(old(State()), id)
    {
      pending := pending - {id};
      removed := id in trusted;
      trusted := trusted - {id};
      if id in peers {
        peers := peers[id := peers[id].(trusted := false)];
      }
    }

    /** One stored record per trusted peer. */
    method StoredTrust() returns (records: seq<Stored>)
      requires Consistent(State())
      ensures Lists(records, State())
    {
      records := [];
      var rest := trusted.Keys;
      while rest != {}
        invariant NoRepeat(records)
        invariant forall i :: 0 <= i < |records| ==> StoredFrom(records[i], State())
        invariant IdsOf(records) !! rest && IdsOf(records) + rest == trusted.Keys
      {
        var id :| id in rest;
        rest := rest - {id};
        if id in peers {
          var stored := Stored(peers[id], ToHex(trusted[id].secret));
          assert (records + [stored])[..|records|] == records;
          records := records + [stored];
        }
      }
    }

    /** Adds stored records one by one; a failure means the registry is not used. */
    method RestoreTrusted(records: seq<Stored>) returns (r: Result<(), StoreError>)
      modifies this
      ensures r.Ok? ==> RestoreStep(old(State()), records) == Ok(State())
      ensures r.Err? ==> RestoreStep(old(State()), records) == Err(r.error)
    {
      hide IsBlank;
      ghost var start := State();
      assert records[0..] == records;
      for i := 0 to |records|
        invariant RestoreStep(State(), records[i..]) == RestoreStep(start, records)
      {
        assert records[i..][0] == records[i] && records[i..][1..] == records[i + 1..];
        var stored := records[i];
        var id := stored.record.advertisement.id;
        if !stored.record.trusted {
          return Err(InvalidSecret);
        }
        var secret := FromHex(stored.pairingSecret);
        if secret.Err? || IsBlank(id) || id in trusted {
          return Err(InvalidSecret);
        }
        trusted := trusted[id := PairedPeer(id, secret.value)];
        peers := peers[id := stored.record];
      }
      return Ok(());
    }

    method Reset(to: Registry)
      modifies this
      ensures State() == to
    {
      peers, trusted, pending := to.peers, to.trusted, to.pending;
    }
  }

  /** A file of stored records, perhaps cut short while it was written. */
  datatype StoreFile = Whole(records: seq<Stored>) | CutShort

  /** The file store: its file, if there is one, and its temporary sibling while a save is under way. */
  class PeerTrustStore {
    var file: Option<StoreFile>
    var temporary: Option<StoreFile>

    constructor ()
      ensures Valid() && Records() == []
    {
      file, temporary := None, None;
    }

    /** Between saves no temporary file is left and the file is whole. */
    ghost predicate Valid()
      reads this
    {
      temporary.None? && (file.Some? ==> file.value.Whole?)
    }

    /** What loading yields; a missing file is no records. */
    function Records(): seq<Stored>
      requires file.Some? ==> file.value.Whole?
      reads this
    {
      if file.None? then [] else file.value.records
    }

    /** Writes a new sibling, renames it into place and then sets the file's permissions; whatever
        fails, the sibling is removed. Failing at the last step reports an error although the new
        contents are in place. */
    method Save(peers: seq<Stored>, fault: SaveFault) returns (ok: bool)
      requires Valid()
      modifies this
      ensures Valid()
      ensures ok <==> fault.SaveOk?
      ensures Records() == if fault.SaveOk? || fault.ChmodFails? then peers else old(Records())
    {
      if fault.MkdirFails? {
        return false;
      }
      ok := WriteAndRename(peers, fault);
      if !ok {
        temporary := None;
      }
    }

    method WriteAndRename(peers: seq<Stored>, fault: SaveFault) returns (ok: bool)
      requires Valid() && !fault.MkdirFails?
      modifies this
      ensures ok <==> fault.SaveOk?
      ensures ok ==> temporary.None?
      ensures file == if fault.SaveOk? || fault.ChmodFails? then Some(Whole(peers)) else old(file)
    {
      if fault.OpenFails? {
        return false;
      }
      temporary := Some(CutShort);
      if fault.WriteFails? {
        return false;
      }
      temporary := Some(Whole(peers));
      if fault.SyncFails? || fault.RenameFails? {
        return false;
      }
      file, temporary := temporary, None;
      ok := !fault.ChmodFails?;
    }
  }

  datatype Reply = Done(changed: bool) | StorageFailed

  class Daemon {
    const registry: PeerRegistry
    const store: PeerTrustStore

    constructor (registry: PeerRegistry, store: PeerTrustStore)
      ensures this.registry == registry && this.store == store
    {
      this.registry, this.store := registry, store;
    }

    function System(): Sys
      requires store.Valid()
      reads registry, store
    {
      Sys(registry.State(), Saved(store.Records()))
    }

    /** Confirms, and takes the whole registry back if the trust cannot be saved. */
    method ConfirmPairing(id: string, code: string, now: nat, fault: SaveFault) returns (reply: Reply)
      requires Consistent(registry.State()) && store.Valid()
      modifies registry, store
      ensures store.Valid() && (System(), reply) == ConfirmSys(old(System()), id, code, now, fault)
      ensures reply == Done(true) ==> Lists(store.Records(), registry.State())
    {
      var before := registry.State();
      ConfirmKeeps(before, id, code, now);
      var confirmed := registry.ConfirmPairing(id, code, now);
      if confirmed {
        reply := Persist(before, fault);
      } else {
        reply := Done(false);
      }
    }

    method RevokePeer(id: string, fault: SaveFault) returns (reply: Reply)
      requires Consistent(registry.State()) && store.Valid()
      modifies registry, store
      ensures store.Valid() && (System(), reply) == RevokeSys(old(System()), id, fault)
      ensures reply == Done(true) ==> Lists(store.Records(), registry.State())
    {
      var before := registry.State();
      RevokeKeeps(before, id);
      var revoked := registry.Revoke(id);
      if revoked {
        reply := Persist(before, fault);
      } else {
        reply := Done(false);
      }
    }

    method Persist(before: Registry, fault: SaveFault) returns (reply: Reply)
      requires Consistent(registry.State()) && store.Valid()
      modifies registry, store
      ensures store.Valid() && (System(), reply) == PersistSys(before, old(System()), fault)
      ensures reply == Done(true) ==> Lists(store.Records(), registry.State())
    {
      var records := registry.StoredTrust();
      ListingSavesSecrets(records, registry.State());
      var saved := store.Save(records, fault);
      if !saved {
        registry.Reset(before);
        return StorageFailed;
      }
      return Done(true);
    }
  }

  // ---------- the daemon's operations as state changes ----------

  datatype Sys = Sys(reg: Registry, saved: map<string, string>)

  /** Saving a changed registry, with the state before the change at hand. */
  function PersistSys(before: Registry, changed: Sys, fault: SaveFault): (Sys, Reply) {
    match fault
    case SaveOk => (Sys(changed.reg, SecretTexts(changed.reg.trusted)), Done(true))
    case ChmodFails => (Sys(before, SecretTexts(changed.reg.trusted)), StorageFailed)
    case _ => (Sys(before, changed.saved), StorageFailed)
  }

  function ConfirmSys(s: Sys, id: string, code: string, now: nat, fault: SaveFault): (Sys, Reply) {
    var (r, ok) := ConfirmStep(s.reg, id, code, now);
    if ok then PersistSys(s.reg, s.(reg := r), fault) else (s.(reg := r), Done(false))
  }

  function RevokeSys(s: Sys, id: string, fault: SaveFault): (Sys, Reply) {
    var (r, ok) := RevokeStep(s.reg, id);
    if ok then PersistSys(s.reg, s.(reg := r), fault) else (s.(reg := r), Done(false))
  }

  datatype Op =
    | Advertise(ad: Advertisement)
    | Request(ad: Advertisement, now: nat, supplied: Option<(string, Secret)>, random: Random)
    | Confirm(id: string, code: string, now: nat, fault: SaveFault)
    | Revoke(id: string, fault: SaveFault)

  function Apply(s: Sys, op: Op): (Sys, Reply) {
    match op
    case Advertise(ad) => (s.(reg := AdvertiseStep(s.reg, ad)), Done(false))
    case Request(ad, now, supplied, random) =>
      (s.(reg := RequestStep(s.reg, ad, now, supplied, random).0), Done(false))
    case Confirm(id, code, now, fault) => ConfirmSys(s, id, code, now, fault)
    case Revoke(id, fault) => RevokeSys(s, id, fault)
  }

  function After(s: Sys, ops: seq<Op>): Sys {
    if ops == [] then s else Apply(After(s, ops[..|ops| - 1]), ops[|ops| - 1]).0
  }

  // ---------- who is trusted after any history ----------

  /** An accepted pairing request for `id`, told from the request itself: a named peer, and either a
      supplied code of six digits, or a draw that gives one and a secret. */
  predicate Requests(op: Op, id: string) {
    && op.Request? && op.ad.id == id && !IsBlank(id)
    && match op.supplied
       case Some(m) => |m.0| == 6 && forall c :: c in m.0 ==> '0' <= c <= '9'
       case None =>
         op.random.secret.Some? && exists k :: 0 <= k < |op.random.draws| && op.random.draws[k] < 4_294_000_000
  }

  /** 300 seconds after it was made, or the end of time. */
  function Expiry(op: Op): nat
    requires op.Request?
  {
    if op.now + 300 < 0x1_0000_0000_0000_0000 then op.now + 300 else 0xFFFF_FFFF_FFFF_FFFF
  }

  /** The pairing a request asks for: the supplied code and secret, or the code of the first draw below
      the limit and the secret that was generated. */
  ghost predicate Asks(op: Op, p: PendingPairing)
    requires op.Request?
  {
    && p.expiresAt == Expiry(op)
    && match op.supplied
       case Some((code, secret)) => p.code == code && p.secret == secret
       case None => FirstDraw(op.random.draws, p.code) && op.random.secret == Some(p.secret)
  }

  /** Exactly what a pairing request does: accepted, it answers with and leaves pending what it asks
      for; refused, it leaves pending what there was. Either way a named peer is advertised. */
  lemma RequestExactly(r: Registry, op: Op)
    requires op.Request?
    ensures var (r', answer) := RequestStep(r, op.ad, op.now, op.supplied, op.random);
            && r'.trusted == r.trusted
            && r'.peers == (if IsBlank(op.ad.id) then r.peers
                            else r.peers[op.ad.id := PeerRecord(op.ad, op.ad.id in r.trusted)])
            && (answer.Ok? <==> Requests(op, op.ad.id))
            && (if answer.Ok? then
                  var p := PendingPairing(answer.value.0, answer.value.1, Expiry(op));
                  Asks(op, p) && r'.pending == r.pending[op.ad.id := p]
                else
                  && r'.pending == r.pending
                  && answer.error == (if IsBlank(op.ad.id) then InvalidPeerId
                                      else if op.supplied.Some? then InvalidCode
                                      else SecretError(ChannelError.Random)))
  {
    hide IsBlank, FirstDraw, CodeFrom;
    CodeIsFirstDraw(op.random.draws);
  }

  /** Exactly what a confirmation does: it succeeds for a pending code that matches in time, which then
      becomes trust in that peer alone; one that comes too late ends the pending pairing, and one with
      another code changes nothing. */
  lemma ConfirmExactly(r: Registry, id: string, code: string, now: nat)
    requires Consistent(r)
    ensures var (r', ok) := ConfirmStep(r, id, code, now);
            && (ok <==> id in r.pending && now < r.pending[id].expiresAt && code == r.pending[id].code)
            && (ok ==>
                  && r'.trusted == r.trusted[id := PairedPeer(id, r.pending[id].secret)]
                  && r'.peers == r.peers[id := PeerRecord(r.peers[id].advertisement, true)]
                  && r'.pending == r.pending - {id})
            && (!ok ==>
                  && r'.trusted == r.trusted && r'.peers == r.peers
                  && r'.pending == if id in r.pending && now >= r.pending[id].expiresAt then r.pending - {id}
                                   else r.pending)
  {
    hide IsBlank, ValidCode;
  }

  /** Exactly what a revocation does: pairing and trust of that peer are gone, its flag is down, and the
      answer says whether it was trusted. */
  lemma RevokeExactly(r: Registry, id: string)
    ensures var (r', removed) := RevokeStep(r, id);
            && (removed <==> id in r.trusted)
            && id !in r'.pending && id !in r'.trusted && (id in r.peers ==> id in r'.peers && !r'.peers[id].trusted)
            && r'.peers.Keys == r.peers.Keys
            && (id in r.peers ==> r'.peers[id].advertisement == r.peers[id].advertisement)
            && forall x :: x != id ==>
                 && (x in r'.pending <==> x in r.pending) && (x in r.pending ==> r'.pending[x] == r.pending[x])
                 && (x in r'.trusted <==> x in r.trusted) && (x in r.trusted ==> r'.trusted[x] == r.trusted[x])
                 && (x in r.peers ==> r'.peers[x] == r.peers[x])
  {
  }

  /** Exactly what an advertisement does: the record is replaced, keeping the flag that trust decides. */
  lemma AdvertiseExactly(r: Registry, ad: Advertisement)
    ensures var r' := AdvertiseStep(r, ad);
            && r'.trusted == r.trusted && r'.pending == r.pending
            && r'.peers == r.peers[ad.id := PeerRecord(ad, ad.id in r.trusted)]
  {
  }

  /** Exactly what is answered: nothing to do, done, or failed to store. */
  lemma AnswersExactly(s: Sys, op: Op)
    requires Consistent(s.reg) && (op.Confirm? || op.Revoke?)
    ensures var does := match op
                        case Confirm(id, code, now, _) =>
                          id in s.reg.pending && now < s.reg.pending[id].expiresAt && code == s.reg.pending[id].code
                        case Revoke(id, _) => id in s.reg.trusted
                        case _ => false;
            Apply(s, op).1 == (if !does then Done(false) else if op.fault.SaveOk? then Done(true) else StorageFailed)
  {
    hide SecretTexts, Consistent;
    match op
    case Confirm(id, code, now, _) => ConfirmExactly(s.reg, id, code, now);
    case Revoke(id, _) => RevokeExactly(s.reg, id);
    case _ =>
  }

  /** A confirmation of `id` that was answered with success. */
  predicate Confirms(s: Sys, op: Op, id: string) {
    op.Confirm? && op.id == id && Apply(s, op).1 == Done(true)
  }

  /** A confirmation that succeeded, or a revocation that was not taken back. */
  predicate Settles(s: Sys, op: Op, id: string) {
    Confirms(s, op, id) || (op.Revoke? && op.id == id && Apply(s, op).1 != StorageFailed)
  }

  /** What ends a pending pairing: its confirmation, a revocation that was not taken back, or a
      confirmation that comes too late. */
  predicate Drops(s: Sys, op: Op, id: string) {
    || Settles(s, op, id)
    || (op.Confirm? && op.id == id && id in s.reg.pending && op.now >= s.reg.pending[id].expiresAt)
  }

  function LastDropped(s: Sys, ops: seq<Op>, id: string): (k: int)
    ensures -1 <= k < |ops|
  {
    if ops == [] then -1
    else if Drops(After(s, ops[..|ops| - 1]), ops[|ops| - 1], id) then |ops| - 1
    else LastDropped(s, ops[..|ops| - 1], id)
  }

  function LastRequest(ops: seq<Op>, id: string): (k: int)
    ensures -1 <= k < |ops| && (k >= 0 ==> Requests(ops[k], id) && ops[k].Request?)
  {
    if ops == [] then -1
    else if Requests(ops[|ops| - 1], id) then |ops| - 1
    else LastRequest(ops[..|ops| - 1], id)
  }

  function LastConfirmed(s: Sys, ops: seq<Op>, id: string): (k: int)
    ensures -1 <= k < |ops|
  {
    if ops == [] then -1
    else if Confirms(After(s, ops[..|ops| - 1]), ops[|ops| - 1], id) then |ops| - 1
    else LastConfirmed(s, ops[..|ops| - 1], id)
  }

  function LastSettled(s: Sys, ops: seq<Op>, id: string): (k: int)
    ensures -1 <= k < |ops|
    ensures k >= 0 ==> (ops[k].Confirm? || ops[k].Revoke?) && ops[k].id == id
  {
    if ops == [] then -1
    else if Settles(After(s, ops[..|ops| - 1]), ops[|ops| - 1], id) then |ops| - 1
    else LastSettled(s, ops[..|ops| - 1], id)
  }

  lemma PendingIsKnown(r: Registry)
    requires Consistent(r)
    ensures forall id :: id in r.pending ==> id in r.peers
  {
  }

  /** What one operation does to one peer. */
  lemma Effect(s: Sys, op: Op, id: string)
    requires Consistent(s.reg)
    ensures var r, r' := s.reg, Apply(s, op).0.reg;
            && Consistent(r')
            && (Confirms(s, op, id) ==>
                  && id in r.pending && op.now < r.pending[id].expiresAt && op.code == r.pending[id].code
                  && id in r'.trusted && r'.trusted[id].secret == r.pending[id].secret && id !in r'.pending)
            && (Settles(s, op, id) && op.Revoke? ==> id !in r'.trusted)
            && (!Settles(s, op, id) ==>
                  (id in r'.trusted <==> id in r.trusted) && (id in r.trusted ==> r'.trusted[id] == r.trusted[id]))
            && (Requests(op, id) ==> id in r'.pending && Asks(op, r'.pending[id]))
            && (!Requests(op, id) ==>
                  && (id in r'.pending <==> id in r.pending && !Drops(s, op, id))
                  && (id in r'.pending ==> r'.pending[id] == r.pending[id]))
  {
    hide IsBlank, ValidCode, SecretTexts, Consistent, SaturatingAdd, Asks, Material, FirstDraw;
    PendingIsKnown(s.reg);
    match op
    case Advertise(ad) =>
      AdvertiseKeeps(s.reg, ad);
    case Request(ad, now, supplied, random) =>
      RequestKeeps(s.reg, ad, now, supplied, random);
      RequestExactly(s.reg, op);
    case Confirm(id', code, now, fault) => ConfirmKeeps(s.reg, id', code, now);
    case Revoke(id', fault) => RevokeKeeps(s.reg, id');
  }

  /** A pairing is pending exactly when the latest accepted request came after whatever last ended one,
      and then it is what that request asked for. */
  ghost predicate PendingIsLatest(s: Sys, ops: seq<Op>, id: string) {
    var r, i := After(s, ops).reg, LastRequest(ops, id);
    && (id in r.pending <==> LastDropped(s, ops, id) < i)
    && (id in r.pending ==> Asks(ops[i], r.pending[id]))
    && LastConfirmed(s, ops, id) <= LastDropped(s, ops, id)
  }

  /** The confirmation at `j` used the latest request before it, in time, with its code, and no
      earlier confirmation had used that request. */
  ghost predicate ConfirmedFrom(s: Sys, ops: seq<Op>, j: nat, id: string, secret: Secret)
    requires j < |ops|
  {
    var i := LastRequest(ops[..j], id);
    && ops[j].Confirm? && ops[j].id == id
    && i >= 0 && LastConfirmed(s, ops[..j], id) < i
    && Asks(ops[i], PendingPairing(ops[j].code, secret, Expiry(ops[i])))
    && ops[j].now < Expiry(ops[i])
  }

  /** Trust in `id` is what the last settled confirmation or revocation left. */
  ghost predicate TrustIsLastSettled(s: Sys, ops: seq<Op>, id: string) {
    var r, j := After(s, ops).reg, LastSettled(s, ops, id);
    if j < 0 then (id in r.trusted <==> id in s.reg.trusted) && (id in r.trusted ==> r.trusted[id] == s.reg.trusted[id])
    else if ops[j].Revoke? then id !in r.trusted
    else id in r.trusted && ConfirmedFrom(s, ops, j, id, r.trusted[id].secret)
  }

  lemma LastRequestEarlier(ops: seq<Op>, id: string)
    requires ops != [] && !Requests(ops[|ops| - 1], id)
    ensures var shorter := ops[..|ops| - 1];
            LastRequest(ops, id) == LastRequest(shorter, id)
            && (LastRequest(ops, id) >= 0 ==> ops[LastRequest(ops, id)] == shorter[LastRequest(ops, id)])
  {
  }

  lemma StillConfirmed(s: Sys, ops: seq<Op>, j: nat, id: string, secret: Secret)
    requires j < |ops| - 1 && ConfirmedFrom(s, ops[..|ops| - 1], j, id, secret)
    ensures ConfirmedFrom(s, ops, j, id, secret)
  {
    hide Requests, Asks, Apply;
    assert ops[..|ops| - 1][..j] == ops[..j];
  }

  /** The trust theorem. From a start without pending codes, after any operations with any saves
      failing: a peer is trusted exactly when its last settled confirmation or revocation was a
      confirmation (or it was trusted to begin with), and its secret is that of the latest request
      before it, confirmed in time with the right code. */
  lemma {:induction false} TrustTrace(s: Sys, ops: seq<Op>, id: string)
    requires Consistent(s.reg) && s.reg.pending == map[]
    ensures Consistent(After(s, ops).reg)
    ensures PendingIsLatest(s, ops, id)
    ensures TrustIsLastSettled(s, ops, id)
  {
    if ops != [] {
      var shorter, op := ops[..|ops| - 1], ops[|ops| - 1];
      TrustTrace(s, shorter, id);
      var before := After(s, shorter);
      Effect(before, op, id);
      PendingStep(s, ops, id);
      TrustStep(s, ops, id);
    }
  }

  lemma PendingStep(s: Sys, ops: seq<Op>, id: string)
    requires ops != [] && Consistent(After(s, ops[..|ops| - 1]).reg) && PendingIsLatest(s, ops[..|ops| - 1], id)
    ensures PendingIsLatest(s, ops, id)
  {
    hide Apply, Consistent, FirstDraw, Asks;
    var shorter, op := ops[..|ops| - 1], ops[|ops| - 1];
    Effect(After(s, shorter), op, id);
    if !Requests(op, id) {
      LastRequestEarlier(ops, id);
    }
  }

  lemma TrustStep(s: Sys, ops: seq<Op>, id: string)
    requires ops != [] && Consistent(After(s, ops[..|ops| - 1]).reg)
    requires PendingIsLatest(s, ops[..|ops| - 1], id) && TrustIsLastSettled(s, ops[..|ops| - 1], id)
    ensures TrustIsLastSettled(s, ops, id)
  {
    hide Apply, Consistent, FirstDraw, Requests;
    var shorter, op := ops[..|ops| - 1], ops[|ops| - 1];
    var before := After(s, shorter);
    Effect(before, op, id);
    if Settles(before, op, id) {
      if Confirms(before, op, id) {
        var i := LastRequest(shorter, id);
        var p := before.reg.pending[id];
        assert p == PendingPairing(op.code, p.secret, Expiry(shorter[i]));
      }
    } else {
      var j := LastSettled(s, shorter, id);
      if j >= 0 && shorter[j].Confirm? {
        StillConfirmed(s, ops, j, id, After(s, ops).reg.trusted[id].secret);
      }
    }
  }

  /** Each request yields at most one success: between two successful confirmations of a peer there
      is an accepted request. */
  lemma OneSuccessPerRequest(s: Sys, ops: seq<Op>, id: string, j: nat)
    requires Consistent(s.reg) && s.reg.pending == map[]
    requires j < |ops| && Confirms(After(s, ops[..j]), ops[j], id)
    ensures LastConfirmed(s, ops[..j], id) < LastRequest(ops[..j], id)
  {
    hide Apply, FirstDraw;
    TrustTrace(s, ops[..j], id);
    Effect(After(s, ops[..j]), ops[j], id);
  }

  // ---------- what the store holds ----------

  predicate Agrees(s: Sys) { s.saved == SecretTexts(s.reg.trusted) }

  /** Whether the operation reaches a save. */
  predicate Saves(s: Sys, op: Op) {
    match op
    case Confirm(id, code, now, _) => ConfirmStep(s.reg, id, code, now).1
    case Revoke(id, _) => RevokeStep(s.reg, id).1
    case _ => false
  }

  /** The operation changes what is trusted, gets its new contents into place, and then fails to set
      the file's permissions: a revocation of a trusted peer, or a confirmation in time with the right
      code that does not merely repeat the secret already trusted. */
  predicate Disturbs(r: Registry, op: Op) {
    match op
    case Confirm(id, code, now, ChmodFails) =>
      && id in r.pending && now < r.pending[id].expiresAt && code == r.pending[id].code
      && !(id in r.trusted && r.trusted[id].secret == r.pending[id].secret)
    case Revoke(id, ChmodFails) => id in r.trusted
    case _ => false
  }

  lemma NewSecretShows(trusted: map<string, PairedPeer>, id: string, peer: PairedPeer)
    ensures SecretTexts(trusted[id := peer]) == SecretTexts(trusted)
       <==> id in trusted && trusted[id].secret == peer.secret
  {
    hide ToHex;
    var before, after := SecretTexts(trusted), SecretTexts(trusted[id := peer]);
    assert after[id] == ToHex(peer.secret);
    if after == before {
      assert id in before && before[id] == ToHex(trusted[id].secret);
      HexInjective(trusted[id].secret, peer.secret);
    }
  }

  /** While no permission change fails, an operation keeps store and memory in agreement. */
  lemma AgreesWithoutChmodFailure(s: Sys, op: Op)
    requires Agrees(s) && ((op.Confirm? || op.Revoke?) ==> !op.fault.ChmodFails?)
    ensures Agrees(Apply(s, op).0)
  {
    hide ToHex, IsBlank;
    match op
    case Advertise(_) =>
    case Request(_, _, _, _) =>
    case Confirm(id, code, now, fault) =>
      assert !ConfirmStep(s.reg, id, code, now).1 ==> ConfirmStep(s.reg, id, code, now).0.trusted == s.reg.trusted;
    case Revoke(id, fault) =>
      assert id !in s.reg.trusted ==> s.reg.trusted - {id} == s.reg.trusted;
  }

  /** Which operations break the agreement between store and memory, told from the state before. */
  lemma StoreAgreesIff(s: Sys, op: Op)
    requires Consistent(s.reg) && Agrees(s)
    ensures Agrees(Apply(s, op).0) <==> !Disturbs(s.reg, op)
  {
    hide ToHex, IsBlank, SecretTexts, ValidCode;
    if (op.Confirm? || op.Revoke?) && op.fault.ChmodFails? {
      match op
      case Confirm(id, code, now, _) =>
        if ConfirmStep(s.reg, id, code, now).1 {
          NewSecretShows(s.reg.trusted, id, PairedPeer(id, s.reg.pending[id].secret));
        }
      case Revoke(id, _) =>
        if id in s.reg.trusted {
          RevokedSecretIsGone(s.reg.trusted, id);
        } else {
          assert s.reg.trusted - {id} == s.reg.trusted;
        }
    } else {
      AgreesWithoutChmodFailure(s, op);
    }
  }

  lemma RevokedSecretIsGone(trusted: map<string, PairedPeer>, id: string)
    requires id in trusted
    ensures SecretTexts(trusted - {id}) != SecretTexts(trusted)
  {
    assert id in SecretTexts(trusted) && id !in SecretTexts(trusted - {id});
  }

  /** It does happen: a revocation whose permission change fails leaves the peer trusted in memory
      but gone from the store. */
  lemma ChmodFailureDisagrees(secret: Secret)
    ensures var r := Registry(map["p" := PeerRecord(Advertisement("p", "", "", 1), true)],
                              map["p" := PairedPeer("p", secret)], map[]);
            var s := Sys(r, SecretTexts(r.trusted));
            var s' := Apply(s, Revoke("p", ChmodFails)).0;
            Agrees(s) && "p" in s'.reg.trusted && "p" !in s'.saved
  {
  }

  /** While no permission change fails, every history keeps store and memory in agreement. */
  lemma {:induction false} StoreAgreesThroughout(s: Sys, ops: seq<Op>)
    requires Agrees(s)
    requires forall op :: op in ops && (op.Confirm? || op.Revoke?) ==> !op.fault.ChmodFails?
    ensures Agrees(After(s, ops))
  {
    if ops != [] {
      StoreAgreesThroughout(s, ops[..|ops| - 1]);
      AgreesWithoutChmodFailure(After(s, ops[..|ops| - 1]), ops[|ops| - 1]);
    }
  }

  /** An operation answered with a storage failure leaves the whole registry, pending codes
      included, as it was. */
  lemma FailedSaveChangesNothing(s: Sys, op: Op)
    requires Apply(s, op).1 == StorageFailed
    ensures Apply(s, op).0.reg == s.reg
  {
  }

  /** However the store came to disagree, the next save that succeeds repairs it. */
  lemma NextSaveRepairs(s: Sys, op: Op)
    requires Saves(s, op) && op.fault.SaveOk?
    ensures Agrees(Apply(s, op).0)
  {
  }
}
