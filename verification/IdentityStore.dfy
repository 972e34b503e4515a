/** The provider identity on disk: written to a temporary file that replaces the
    target in one rename, created once, and loaded on every later start. Elliptic
    curve arithmetic enters as functions about which nothing else is known. */
module IdentityStore {
  import opened Wrappers
  import opened Text
  import opened Timestamps

  type Uuid = b: seq<Byte> | |b| == 16 witness seq(16, _ => 0)

  datatype Identity = Identity(providerId: Uuid, privateKey: seq<Byte>, publicKey: seq<Byte>, createdAt: Instant)

  /** Scalars and points as bytes: reduction modulo the group order, the zero test, the
      compressed public key of a scalar, and whether bytes are such a key. */
  datatype Curve = Curve(reduce: seq<Byte> -> seq<Byte>, isZero: seq<Byte> -> bool,
                         derive: seq<Byte> -> seq<Byte>, isPoint: seq<Byte> -> bool)

  /** What newIdentity produces: a UUID and a key pair that belong together. */
  predicate Genuine(curve: Curve, id: Identity) {
    && |id.privateKey| == 32 && |id.publicKey| == 33
    && curve.reduce(id.privateKey) == id.privateKey && !curve.isZero(id.privateKey)
    && id.publicKey == curve.derive(id.privateKey) && curve.isPoint(id.publicKey)
  }

  /** The identity as a reader of the file sees it: its creation time cut to seconds. */
  function InSeconds(id: Identity): Identity {
    id.(createdAt := id.createdAt / NS * NS)
  }

  // ---------------------------------------------------------------- text form

  /** UUID.String: hexadecimal in groups of 8, 4, 4, 4 and 12. */
  function UuidText(bytes: Uuid): string {
    var h := HexText(bytes);
    h[..8] + ("-" + (h[8..12] + ("-" + (h[12..16] + ("-" + (h[16..20] + ("-" + h[20..])))))))
  }

  /** uuid.Parse on that form. */
  function UuidBytes(t: string): Option<Uuid> {
    if |t| == 36 && t[8] == '-' && t[13] == '-' && t[18] == '-' && t[23] == '-' then
      match HexBytes(t[..8] + t[9..13] + t[14..18] + t[19..23] + t[24..])
      case None => None
      case Some(bytes) => Some(bytes)
    else None
  }

  lemma {:induction false} UuidRoundTrip(bytes: Uuid)
    ensures UuidBytes(UuidText(bytes)) == Some(bytes)
  {
    hide HexBytes, HexText;
    var h, t := HexText(bytes), UuidText(bytes);
    HexRoundTrip(bytes);
    UuidGroups(h, t);
  }

  lemma {:induction false} UuidGroups(h: string, t: string)
    requires |h| == 32
    requires t == h[..8] + ("-" + (h[8..12] + ("-" + (h[12..16] + ("-" + (h[16..20] + ("-" + h[20..])))))))
    ensures |t| == 36 && t[8] == '-' && t[13] == '-' && t[18] == '-' && t[23] == '-'
    ensures t[..8] + t[9..13] + t[14..18] + t[19..23] + t[24..] == h
  {
    assert t[..8] == h[..8] && t[9..13] == h[8..12];
    var tail := h[16..20] + ("-" + h[20..]);
    assert t[14..18] == h[12..16] && t[19..] == tail;
    assert tail[..4] == h[16..20] && tail[4] == '-' && tail[5..] == h[20..];
    assert t[19..23] == tail[..4] && t[24..] == tail[5..] && t[23] == tail[4];
  }

  /** The JSON document's fields. */
  datatype FileIdentity = FileIdentity(providerId: string, publicKey: string, privateKey: string, createdAt: string)

  /** What stands before each value in the indented document, and after the last one. */
  const LEADS: seq<string> := ["{\n  \"provider_id\": \"", ",\n  \"public_key\": \"",
                               ",\n  \"private_key\": \"", ",\n  \"created_at\": \""]
  const ENDING: string := "\n}\n"

  function Document(leads: seq<string>, values: seq<string>): string
    requires |leads| == |values|
  {
    if leads == [] then ENDING else leads[0] + (values[0] + ['"'] + Document(leads[1..], values[1..]))
  }

  /** The document that Save writes, for values that need no escaping. */
  function Encode(f: FileIdentity): string {
    Document(LEADS, [f.providerId, f.publicKey, f.privateKey, f.createdAt])
  }

  /** A label, a value up to the next quote, and what follows. */
  function Field(text: string, lead: string): Option<(string, string)> {
    if !(lead <= text) then None
    else
      var rest := text[|lead|..];
      var i := Find(rest, '"');
      if i == |rest| then None else Some((rest[..i], rest[i + 1..]))
  }

  /** The values of a document laid out with these leads. */
  function Values(text: string, leads: seq<string>): (r: Option<seq<string>>)
    ensures r.Some? ==> |r.value| == |leads|
    decreases |leads|
  {
    if leads == [] then (if text == ENDING then Some([]) else None)
    else match Field(text, leads[0])
      case None => None
      case Some((value, rest)) =>
        match Values(rest, leads[1..])
        case None => None
        case Some(values) => Some([value] + values)
  }

  /** Decoding of a document laid out as Encode lays it out. */
  function Decode(text: string): Option<FileIdentity> {
    match Values(text, LEADS)
    case None => None
    case Some(v) => Some(FileIdentity(v[0], v[1], v[2], v[3]))
  }

  predicate Quoteless(f: FileIdentity) {
    '"' !in f.providerId && '"' !in f.publicKey && '"' !in f.privateKey && '"' !in f.createdAt
  }

  lemma {:induction false} FieldOf(lead: string, value: string, rest: string)
    requires '"' !in value
    ensures Field(lead + (value + ['"'] + rest), lead) == Some((value, rest))
  {
    hide Find;
    var text := lead + (value + ['"'] + rest);
    assert text[|lead|..] == value + ['"'] + rest;
    FindAfter(value, '"', rest);
    assert (value + ['"'] + rest)[..|value|] == value && (value + ['"'] + rest)[|value| + 1..] == rest;
  }

  lemma {:induction false} ValuesOfDocument(leads: seq<string>, values: seq<string>)
    requires |leads| == |values| && forall i :: 0 <= i < |values| ==> '"' !in values[i]
    ensures Values(Document(leads, values), leads) == Some(values)
  {
    hide Field;
    if leads != [] {
      FieldOf(leads[0], values[0], Document(leads[1..], values[1..]));
      ValuesOfDocument(leads[1..], values[1..]);
      assert values == [values[0]] + values[1..];
    }
  }

  lemma {:induction false} JsonRoundTrip(f: FileIdentity)
    requires Quoteless(f)
    ensures Decode(Encode(f)) == Some(f)
  {
    hide Values, Document;
    ValuesOfDocument(LEADS, [f.providerId, f.publicKey, f.privateKey, f.createdAt]);
  }

  function Stored(id: Identity): FileIdentity {
    FileIdentity(UuidText(id.providerId), HexText(id.publicKey), HexText(id.privateKey), Stamp(id.createdAt))
  }

  /** The file, character by character: four labelled lines, the public key before the private
      one, the keys in hexadecimal. */
  lemma {:induction false} SavedText(id: Identity)
    ensures Encode(Stored(id))
         == "{\n  \"provider_id\": \"" + (UuidText(id.providerId) + ['"'] +
            (",\n  \"public_key\": \"" + (HexText(id.publicKey) + ['"'] +
            (",\n  \"private_key\": \"" + (HexText(id.privateKey) + ['"'] +
            (",\n  \"created_at\": \"" + (Stamp(id.createdAt) + ['"'] + "\n}\n")))))))
  {
    hide UuidText, HexText, Stamp, Document;
    var f := Stored(id);
    var values := [f.providerId, f.publicKey, f.privateKey, f.createdAt];
    DocumentStep(LEADS, values, 3);
    DocumentStep(LEADS, values, 2);
    DocumentStep(LEADS, values, 1);
    DocumentStep(LEADS, values, 0);
    DocumentEnd();
    assert LEADS[4..] == [] && values[4..] == [] && LEADS[0..] == LEADS && values[0..] == values;
  }

  lemma {:induction false} DocumentStep(leads: seq<string>, values: seq<string>, i: nat)
    requires |leads| == |values| && i < |leads|
    ensures Document(leads[i..], values[i..])
         == leads[i] + (values[i] + ['"'] + Document(leads[i + 1..], values[i + 1..]))
  {
    assert leads[i..][1..] == leads[i + 1..] && values[i..][1..] == values[i + 1..];
  }

  lemma DocumentEnd()
    ensures Document([], []) == "\n}\n"
  {
  }

  /** A UUID is its 32 hexadecimal digits with dashes after 8, 12, 16 and 20 of them. */
  lemma {:induction false} UuidSpells(bytes: Uuid)
    ensures var h, t := HexText(bytes), UuidText(bytes);
            && |t| == 36 && t[8] == t[13] == t[18] == t[23] == '-'
            && t[..8] == h[..8] && t[9..13] == h[8..12] && t[14..18] == h[12..16] && t[19..23] == h[16..20]
            && t[24..] == h[20..]
  {
    hide HexText;
    var h, t := HexText(bytes), UuidText(bytes);
    UuidGroups(h, t);
    var tail := h[16..20] + ("-" + h[20..]);
    assert t[19..] == tail;
    assert tail[..4] == h[16..20] && tail[5..] == h[20..];
    assert t[19..23] == tail[..4] && t[24..] == tail[5..];
  }

  datatype LoadError = NotFound | Unreadable | BadDocument | BadProviderId | BadCreatedAt
                     | BadPrivateKey | BadPublicKey | KeyMismatch

  /** Load on the target's content; `readable` is false when the read fails or is cancelled. */
  function Load(curve: Curve, target: Option<string>, readable: bool): Result<Identity, LoadError> {
    if !readable then Failure(Unreadable)
    else if target.None? then Failure(NotFound)
    else match Decode(target.value)
      case None => Failure(BadDocument)
      case Some(f) => FromDocument(curve, f)
  }

  function FromDocument(curve: Curve, f: FileIdentity): Result<Identity, LoadError> {
    var provider, created := UuidBytes(f.providerId), Parse(f.createdAt);
    var priv, pub := HexBytes(f.privateKey), HexBytes(f.publicKey);
    if provider.None? then Failure(BadProviderId)
    else if created.None? then Failure(BadCreatedAt)
    else if priv.None? || |priv.value| != 32 || curve.isZero(curve.reduce(priv.value)) then Failure(BadPrivateKey)
    else if pub.None? || |pub.value| != 33 || !curve.isPoint(pub.value) then Failure(BadPublicKey)
    else if curve.derive(curve.reduce(priv.value)) != pub.value then Failure(KeyMismatch)
    else Success(Identity(provider.value, curve.reduce(priv.value), pub.value, created.value * NS))
  }

  lemma {:induction false} StoredIsQuoteless(id: Identity)
    ensures Quoteless(Stored(id))
  {
    hide HexText, Format, UuidText;
    StampIsQuoteless(id.createdAt);
    UuidIsQuoteless(id.providerId);
    assert !IsHex('"');
  }

  lemma {:induction false} UuidIsQuoteless(bytes: Uuid)
    ensures '"' !in UuidText(bytes)
  {
    hide HexText;
    assert !IsHex('"');
    var h := HexText(bytes);
    assert forall i :: 0 <= i < |h| ==> h[i] in h;
    assert '"' !in h[..8] && '"' !in h[8..12] && '"' !in h[12..16] && '"' !in h[16..20] && '"' !in h[20..];
  }

  lemma {:induction false} StampIsQuoteless(t: Instant)
    ensures '"' !in Stamp(t)
  {
    hide Digits, Concat;
    CivilTextForm(FromSeconds(t / NS));
    assert forall d, w :: '"' !in Digits(d, w);
  }

  /** Loading what was saved gives the identity back, with its creation time in seconds. */
  lemma {:induction false} LoadAfterSave(curve: Curve, id: Identity)
    requires Genuine(curve, id)
    ensures Load(curve, Some(Encode(Stored(id))), true) == Success(InSeconds(id))
  {
    hide Decode, Encode, UuidText, UuidBytes, HexText, HexBytes, Parse, Format, Quoteless;
    StoredIsQuoteless(id);
    JsonRoundTrip(Stored(id));
    UuidRoundTrip(id.providerId);
    HexRoundTrip(id.privateKey);
    HexRoundTrip(id.publicKey);
    RoundTrip(id.createdAt / NS, Stamp(id.createdAt));
  }

  lemma {:induction false} DocumentOfValues(text: string, leads: seq<string>)
    requires Values(text, leads).Some?
    ensures Document(leads, Values(text, leads).value) == text
    decreases |leads|
  {
    hide Find;
    if leads != [] {
      var (value, rest) := Field(text, leads[0]).value;
      DocumentOfValues(rest, leads[1..]);
      assert text == leads[0] + text[|leads[0]|..];
      assert text[|leads[0]|..] == value + ['"'] + rest;
      assert Values(text, leads).value[1..] == Values(rest, leads[1..]).value;
    }
  }

  lemma {:induction false} EncodeOfDecode(text: string)
    requires Decode(text).Some?
    ensures Encode(Decode(text).value) == text
  {
    hide Values, Document;
    DocumentOfValues(text, LEADS);
    var v := Values(text, LEADS).value;
    assert v == [v[0], v[1], v[2], v[3]];
  }

  lemma {:induction false} UuidOfBytes(t: string)
    requires UuidBytes(t).Some?
    ensures UuidText(UuidBytes(t).value) == t
  {
    hide HexBytes, HexText;
    var h := t[..8] + t[9..13] + t[14..18] + t[19..23] + t[24..];
    HexOfBytes(h);
    assert h[..8] == t[..8] && h[8..12] == t[9..13] && h[12..16] == t[14..18] && h[16..20] == t[19..23]
        && h[20..] == t[24..];
    assert t == t[..8] + ("-" + (t[9..13] + ("-" + (t[14..18] + ("-" + (t[19..23] + ("-" + t[24..])))))));
  }

  /** A file that loads is, character by character, the file that Save writes for what was
      loaded; only the private key may have stood there before its reduction. */
  lemma {:induction false} LoadedFileIsSaved(curve: Curve, text: string)
    requires Load(curve, Some(text), true).Success?
    ensures var id := Load(curve, Some(text), true).value;
            exists key: seq<Byte> ::
              && |key| == 32 && curve.reduce(key) == id.privateKey
              && text == Encode(Stored(id.(privateKey := key)))
  {
    hide Decode, Encode, UuidText, UuidBytes, HexText, HexBytes, Parse, Format;
    var id, f := Load(curve, Some(text), true).value, Decode(text).value;
    EncodeOfDecode(text);
    UuidOfBytes(f.providerId);
    HexOfBytes(f.publicKey);
    HexOfBytes(f.privateKey);
    RoundTrip(Parse(f.createdAt).value, f.createdAt);
    var key := HexBytes(f.privateKey).value;
    assert f == Stored(id.(privateKey := key));
  }

  /** Only a missing file counts as not found, which is what lets a start create one. */
  lemma {:induction false} OnlyMissingIsNotFound(curve: Curve, target: Option<string>, readable: bool)
    ensures Load(curve, target, readable) == Failure(NotFound) <==> readable && target == None
  {
    hide Decode, UuidBytes, HexBytes, Parse;
  }

  /** An identity that loads has a usable key pair that belongs together. */
  lemma {:induction false} LoadedKeysMatch(curve: Curve, target: Option<string>, readable: bool)
    ensures var r := Load(curve, target, readable);
            r.Success? ==>
              && !curve.isZero(r.value.privateKey)
              && r.value.publicKey == curve.derive(r.value.privateKey)
              && |r.value.publicKey| == 33 && curve.isPoint(r.value.publicKey)
  {
    hide Decode, UuidBytes, HexBytes, Parse;
  }

  lemma {:induction false} LoadedIsInSeconds(curve: Curve, target: Option<string>, readable: bool)
    ensures var r := Load(curve, target, readable); r.Success? ==> InSeconds(r.value) == r.value
  {
    hide Decode, UuidBytes, HexBytes, Parse;
  }

  // ---------------------------------------------------------------- saving, with faults

  /** The steps of Save. A write can put down any part of the text. */
  datatype Stage = CheckContext | MakeDir | CreateTemp | ChmodTemp | WriteTemp(written: nat)
                 | SyncTemp | CloseTemp | RenameTemp | ChmodTarget

  /** A step may fail, or the process may stop before it is complete. */
  datatype Fault = NoFault | FailsAt(stage: Stage) | StopsAt(stage: Stage)

  datatype SaveResult = Saved | SaveFailed | Stopped

  function SaveOutcome(fault: Fault): SaveResult {
    match fault
    case NoFault => Saved
    case FailsAt(_) => SaveFailed
    case StopsAt(_) => Stopped
  }

  /** The target's content after a Save: replaced exactly when the rename was reached. */
  function TargetAfterSave(previous: Option<string>, text: string, fault: Fault): Option<string> {
    if fault.NoFault? || fault.stage.ChmodTarget? then Some(text) else previous
  }

  class Disk {
    var target: Option<string>
    var temps: map<nat, string>

    constructor ()
      ensures target == None && temps == map[]
    {
      target, temps := None, map[];
    }
  }

  /** Save, with the deferred removal of the temporary file when it returns an error. `tmp`
      is the fresh name that CreateTemp picks. */
  method Save(disk: Disk, text: string, tmp: nat, fault: Fault) returns (r: SaveResult)
    requires tmp !in disk.temps
    modifies disk
    ensures r == SaveOutcome(fault)
    ensures disk.target == TargetAfterSave(old(disk.target), text, fault)
    ensures disk.target == old(disk.target) || disk.target == Some(text)
    ensures r != Stopped ==> disk.temps == old(disk.temps)
    ensures disk.temps - {tmp} == old(disk.temps)
  {
    r := SaveOutcome(fault);
    if !fault.NoFault? && (fault.stage.CheckContext? || fault.stage.MakeDir? || fault.stage.CreateTemp?) {
      assert disk.temps - {tmp} == disk.temps;
      return;
    }
    disk.temps := disk.temps[tmp := ""];
    if !fault.NoFault? && fault.stage.ChmodTemp? {
      CleanUpTemp(disk, tmp, fault);
      return;
    }
    if !fault.NoFault? && fault.stage.WriteTemp? {
      var n := if fault.stage.written < |text| then fault.stage.written else |text|;
      disk.temps := disk.temps[tmp := text[..n]];
      CleanUpTemp(disk, tmp, fault);
      return;
    }
    disk.temps := disk.temps[tmp := text];
    if !fault.NoFault? && !fault.stage.ChmodTarget? {
      CleanUpTemp(disk, tmp, fault);
      return;
    }
    disk.target := Some(disk.temps[tmp]);
    disk.temps := disk.temps - {tmp};
  }

  /** The deferred removal: it runs when Save returns an error, not when the process stops. */
  method CleanUpTemp(disk: Disk, tmp: nat, fault: Fault)
    requires !fault.NoFault?
    modifies disk`temps
    ensures disk.temps == if fault.FailsAt? then old(disk.temps) - {tmp} else old(disk.temps)
  {
    if fault.FailsAt? {
      disk.temps := disk.temps - {tmp};
    }
  }

  // ---------------------------------------------------------------- lives of the process

  /** One start of the process and what befalls it: whether the file can be read, the
      identity it would generate, and the fault of its Save. */
  datatype Life = Life(readable: bool, generated: Option<Identity>, fault: Fault)

  datatype Outcome = Returned(id: Identity, created: bool) | Refused | Died

  /** What LoadOrCreate returns. */
  function OutcomeOf(curve: Curve, target: Option<string>, life: Life): Outcome {
    match Load(curve, target, life.readable)
    case Success(id) => Returned(id, false)
    case Failure(e) =>
      if e != NotFound || life.generated.None? then Refused
      else match SaveOutcome(life.fault)
        case Saved => Returned(life.generated.value, true)
        case SaveFailed => Refused
        case Stopped => Died
  }

  function TargetAfter(curve: Curve, target: Option<string>, life: Life): Option<string> {
    if Load(curve, target, life.readable) == Failure(NotFound) && life.generated.Some?
    then TargetAfterSave(target, Encode(Stored(life.generated.value)), life.fault)
    else target
  }

  method LoadOrCreate(curve: Curve, disk: Disk, life: Life, tmp: nat) returns (o: Outcome)
    requires tmp !in disk.temps
    modifies disk
    ensures o == OutcomeOf(curve, old(disk.target), life)
    ensures disk.target == TargetAfter(curve, old(disk.target), life)
  {
    hide Decode, FromDocument, Encode, Stored;
    var loaded := Load(curve, disk.target, life.readable);
    if loaded.Success? {
      return Returned(loaded.value, false);
    }
    if loaded.error != NotFound {
      return Refused;
    }
    if life.generated.None? {
      return Refused;
    }
    var r := Save(disk, Encode(Stored(life.generated.value)), tmp, life.fault);
    match r {
      case Saved => return Returned(life.generated.value, true);
      case SaveFailed => return Refused;
      case Stopped => return Died;
    }
  }

  /** Every life generates a proper identity, if any. */
  predicate LivesOk(curve: Curve, lives: seq<Life>) {
    forall i :: 0 <= i < |lives| && lives[i].generated.Some? ==> Genuine(curve, lives[i].generated.value)
  }

  /** The target after a sequence of lives. */
  function TargetAfterAll(curve: Curve, target: Option<string>, lives: seq<Life>): Option<string> {
    if lives == [] then target
    else TargetAfter(curve, TargetAfterAll(curve, target, lives[..|lives| - 1]), lives[|lives| - 1])
  }

  /** The outcome of life i. */
  function OutcomeAt(curve: Curve, target: Option<string>, lives: seq<Life>, i: nat): Outcome
    requires i < |lives|
  {
    OutcomeOf(curve, TargetAfterAll(curve, target, lives[..i]), lives[i])
  }

  /** The target holds the complete document of an identity. */
  predicate Holds(curve: Curve, target: Option<string>, id: Identity) {
    Load(curve, target, true) == Success(id)
  }

  /** A life that returns leaves its identity on disk. */
  lemma {:induction false} ReturnedIsHeld(curve: Curve, target: Option<string>, life: Life)
    requires life.generated.Some? ==> Genuine(curve, life.generated.value)
    requires OutcomeOf(curve, target, life).Returned?
    ensures Holds(curve, TargetAfter(curve, target, life), InSeconds(OutcomeOf(curve, target, life).id))
  {
    hide Decode, FromDocument, Encode, Stored;
    LoadedIsInSeconds(curve, target, life.readable);
    if life.generated.Some? {
      LoadAfterSave(curve, life.generated.value);
    }
  }

  /** A file that exists is never replaced, not even one that does not load: then the start
      refuses. */
  lemma {:induction false} ExistingFileStays(curve: Curve, text: string, life: Life)
    ensures TargetAfter(curve, Some(text), life) == Some(text)
    ensures OutcomeOf(curve, Some(text), life)
         == match Load(curve, Some(text), life.readable)
            case Success(id) => Returned(id, false)
            case Failure(_) => Refused
  {
    hide Decode, FromDocument, Encode, Stored;
    OnlyMissingIsNotFound(curve, Some(text), life.readable);
  }

  /** Without a file a start creates: it returns the identity it generated when its Save comes
      through, refuses when Save fails or there is nothing to save, and dies where Save stops. */
  lemma {:induction false} MissingFileIsCreated(curve: Curve, life: Life)
    ensures OutcomeOf(curve, None, life)
         == if !life.readable || life.generated.None? then Refused
            else match life.fault
              case NoFault => Returned(life.generated.value, true)
              case FailsAt(_) => Refused
              case StopsAt(_) => Died
  {
  }

  /** A complete file is never replaced, and whoever reads it gets its identity. */
  lemma {:induction false} HeldStays(curve: Curve, target: Option<string>, life: Life, id: Identity)
    requires Holds(curve, target, id)
    ensures TargetAfter(curve, target, life) == target
    ensures OutcomeOf(curve, target, life) == if life.readable then Returned(id, false) else Refused
  {
    hide Decode, FromDocument, Encode, Stored;
  }

  lemma {:induction false} HeldStaysOverLives(curve: Curve, target: Option<string>, lives: seq<Life>, i: nat, j: nat,
                                              id: Identity)
    requires i <= j <= |lives|
    requires Holds(curve, TargetAfterAll(curve, target, lives[..i]), id)
    ensures TargetAfterAll(curve, target, lives[..j]) == TargetAfterAll(curve, target, lives[..i])
    decreases j
  {
    hide TargetAfter, Holds, OutcomeOf, Load, LivesOk;
    if i < j {
      HeldStaysOverLives(curve, target, lives, i, j - 1, id);
      assert lives[..j][..j - 1] == lives[..j - 1];
      HeldStays(curve, TargetAfterAll(curve, target, lives[..j - 1]), lives[j - 1], id);
    }
  }

  /** Once the target holds a complete document, whoever put it there and even if that start
      never returned: every start from then on returns its identity, not created, or refuses
      because it cannot read the file, and the target stays. */
  lemma {:induction false} HeldForever(curve: Curve, target: Option<string>, lives: seq<Life>, i: nat, j: nat,
                                       id: Identity)
    requires i <= j < |lives| && Holds(curve, TargetAfterAll(curve, target, lives[..i]), id)
    ensures OutcomeAt(curve, target, lives, j) == if lives[j].readable then Returned(id, false) else Refused
    ensures TargetAfterAll(curve, target, lives) == TargetAfterAll(curve, target, lives[..i])
  {
    hide TargetAfter, Holds, OutcomeOf, TargetAfterAll;
    HeldStaysOverLives(curve, target, lives, i, j, id);
    HeldStays(curve, TargetAfterAll(curve, target, lives[..j]), lives[j], id);
    HeldStaysOverLives(curve, target, lives, i, |lives|, id);
    assert lives[..|lives|] == lives;
  }

  /** On a disk without the file, a start leaves its identity complete exactly when it generated
      one and its Save got past the rename, whether or not it returned; otherwise no file. */
  lemma {:induction false} RenameDecides(curve: Curve, life: Life)
    requires life.generated.Some? ==> Genuine(curve, life.generated.value)
    ensures var after := TargetAfter(curve, None, life);
            if life.readable && life.generated.Some? && (life.fault.NoFault? || life.fault.stage.ChmodTarget?)
            then Holds(curve, after, InSeconds(life.generated.value))
            else after == None
  {
    hide Decode, FromDocument, Encode, Stored, Genuine;
    if life.generated.Some? {
      LoadAfterSave(curve, life.generated.value);
    }
  }

  /** Whatever was on disk at first and wherever lives fail or stop: once one start has
      returned an identity, every later start returns the same provider id and keys without
      creating them, or refuses because it cannot read the file. */
  lemma {:induction false} OneIdentityForever(curve: Curve, target: Option<string>, lives: seq<Life>, i: nat, j: nat)
    requires LivesOk(curve, lives) && i < j < |lives|
    ensures var first, later := OutcomeAt(curve, target, lives, i), OutcomeAt(curve, target, lives, j);
            first.Returned? ==> later == if lives[j].readable then Returned(InSeconds(first.id), false) else Refused
  {
    hide TargetAfter, Holds, OutcomeOf;
    var before := TargetAfterAll(curve, target, lives[..i]);
    if OutcomeOf(curve, before, lives[i]).Returned? {
      ReturnedIsHeld(curve, before, lives[i]);
      assert lives[..i + 1][..i] == lives[..i];
      HeldForever(curve, target, lives, i + 1, j, InSeconds(OutcomeOf(curve, before, lives[i]).id));
    }
  }

  /** On an empty disk a start that nothing disturbs creates its identity, and the next
      readable start loads it, whatever identity that one would have generated. */
  lemma {:induction false} FirstStartCreates(curve: Curve, id: Identity, next: Life)
    requires Genuine(curve, id) && next.readable
    ensures var lives := [Life(true, Some(id), NoFault), next];
            && OutcomeAt(curve, None, lives, 0) == Returned(id, true)
            && OutcomeAt(curve, None, lives, 1) == Returned(InSeconds(id), false)
  {
    hide Decode, FromDocument, Encode, Stored, Genuine;
    var first := Life(true, Some(id), NoFault);
    var lives := [first, next];
    LoadAfterSave(curve, id);
    assert lives[..0] == [] && lives[..1] == [first] && [first][..0] == [];
  }
}
