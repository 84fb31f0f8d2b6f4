/** The hash-linked audit log of one organization. SHA-256 is an arbitrary function on texts, assumed
    injective only where a result says so. */
module AuditLog {
  import opened Text
  import opened Primitives
  import opened JsonText
  import opened CanonicalJson

  type HashFunction = Text -> Text

  ghost predicate Injective(hash: HashFunction) {
    forall a, b :: hash(a) == hash(b) ==> a == b
  }

  /** A stored event, without its links. */
  datatype Event = Event(
    sequence: int, id: Text, actorType: Text, actorUserId: Option<Text>, action: Text, entityType: Text,
    entityId: Option<Text>, occurredAt: Text, ipAddress: Option<Text>, userAgent: Option<Text>)

  datatype Row = Row(event: Event, metadataJson: Text, previousHash: Text, eventHash: Text)

  /** Metadata may be any JavaScript value. `Data` is a value of the JSON data model, or a bare number that is not
      finite; `Converted` is any other value that is printed, such as a date, a boxed primitive, an object with
      `toJSON` or a container of such, and holds what it is printed as; `Unprinted` is a function or a symbol,
      which `JSON.stringify` makes nothing of; on `Unprintable`, such as a cycle or a BigInt, it throws. */
  datatype Metadata = Absent | Data(json: Json) | Converted(json: Json) | Unprinted | Unprintable

  /** What a caller hands over: the sequence number is the log's to give. */
  datatype Input = Input(
    id: Text, actorType: Text, actorUserId: Option<Text>, action: Text, entityType: Text,
    entityId: Option<Text>, occurredAt: Text, ipAddress: Option<Text>, userAgent: Option<Text>,
    metadata: Metadata)

  datatype Result<T> = Ok(value: T) | Error

  datatype Verification = Verification(valid: bool, checkedEvents: nat)

  function Genesis(): (r: Text) {
    Repeat(ZERO, 64)
  }

  function Ascii(s: string): (r: Text) {
    seq(|s|, i requires 0 <= i < |s| => s[i] as int % 0x80)
  }

  function Nullable(t: Option<Text>): (r: Json) {
    match t
    case None => Null
    case Some(s) => Str(s)
  }

  function HashedKeys(): (r: seq<Text>) {
    [ Ascii("version"), Ascii("organizationId"), Ascii("sequenceNumber"), Ascii("id"), Ascii("actorType"),
      Ascii("actorUserId"), Ascii("action"), Ascii("entityType"), Ascii("entityId"), Ascii("occurredAt"),
      Ascii("ipAddress"), Ascii("userAgent"), Ascii("metadata"), Ascii("previousHash") ]
  }

  function HashedValues(organization: Text, e: Event, metadata: Json, previousHash: Text): (r: seq<Json>) {
    [ Num(1), Str(organization), Num(e.sequence), Str(e.id), Str(e.actorType),
      Nullable(e.actorUserId), Str(e.action), Str(e.entityType), Nullable(e.entityId), Str(e.occurredAt),
      Nullable(e.ipAddress), Nullable(e.userAgent), metadata, Str(previousHash) ]
  }

  function Members(keys: seq<Text>, values: seq<Json>): (r: seq<Member>)
    requires |keys| == |values|
  {
    seq(|keys|, i requires 0 <= i < |keys| => Member(keys[i], values[i]))
  }

  /** The object that is hashed. */
  function HashedObject(organization: Text, e: Event, metadata: Json, previousHash: Text): (r: Json) {
    Obj(Members(HashedKeys(), HashedValues(organization, e, metadata, previousHash)))
  }

  /** The hash of an event, its metadata and the hash it links to. */
  type EventHash = (Event, Json, Text) -> Text

  function HashEvent(hash: HashFunction, organization: Text): (r: EventHash) {
    (e, metadata, previousHash) => hash(AuditPrint(HashedObject(organization, e, metadata, previousHash)))
  }

  /** `JSON.parse(JSON.stringify(value ?? {}))`, or the empty object if nothing is printed: a missing or null value
      becomes the empty object, and None stands for a thrown error. */
  function NormalizeJson(value: Metadata): (r: Option<Json>) {
    match value
    case Absent => Parse(Encode(Obj([])))
    case Data(v) => Parse(Encode(if v == Null then Obj([]) else v))
    case Converted(v) => Parse(Encode(v))
    case Unprinted => Some(Obj([]))
    case Unprintable => None
  }

  /** The value is printed as null although it is not null itself: a number that is not finite, an invalid date, an
      object whose `toJSON` gives null. */
  predicate BecomesNull(value: Metadata) {
    value == Data(NonFinite) || value == Converted(Null) || value == Converted(NonFinite)
  }

  /** The hash row n links to. */
  function HashBefore(rows: seq<Row>, n: nat): (r: Text)
    requires n <= |rows|
  {
    if n == 0 then Genesis() else rows[n - 1].eventHash
  }

  function LastHash(rows: seq<Row>): (r: Text) {
    HashBefore(rows, |rows|)
  }

  function NextSequence(rows: seq<Row>): (r: int) {
    (if rows == [] then 0 else rows[|rows| - 1].event.sequence) + 1
  }

  /** The row an append inserts, given the normalised metadata. */
  function NewRow(codec: Codec, rows: seq<Row>, input: Input, metadata: Json): (r: Row) {
    var e := Event(NextSequence(rows), input.id, input.actorType, input.actorUserId, Trim(input.action),
                   Trim(input.entityType), input.entityId, input.occurredAt, input.ipAddress, input.userAgent);
    Row(e, AuditPrint(metadata), LastHash(rows), codec.hashEvent(e, metadata, LastHash(rows)))
  }

  /** The unique columns: no stored row has the id or the hash. */
  predicate Unseen(rows: seq<Row>, row: Row) {
    forall i | 0 <= i < |rows| :: rows[i].event.id != row.event.id && rows[i].eventHash != row.eventHash
  }

  /** The metadata a verifier hashes for a stored text, or None when the text is not JSON. */
  function StoredMetadata(metadataJson: Text): (r: Option<Json>) {
    match Parse(metadataJson)
    case None => None
    case Some(v) => NormalizeJson(Data(v))
  }

  /** How an organization's log hashes events and reads metadata back. */
  datatype Codec = Codec(hashEvent: EventHash, readMetadata: Text -> Option<Json>)

  function CodecOf(hash: HashFunction, organization: Text): (r: Codec) {
    Codec(HashEvent(hash, organization), StoredMetadata)
  }

  /** Row i continues the chain: sequence number, link, readable metadata and hash are all right. */
  ghost predicate RowOk(codec: Codec, rows: seq<Row>, i: nat)
    requires i < |rows|
  {
    && rows[i].event.sequence == i + 1
    && rows[i].previousHash == HashBefore(rows, i)
    && codec.readMetadata(rows[i].metadataJson).Some?
    && rows[i].eventHash == codec.hashEvent(rows[i].event, codec.readMetadata(rows[i].metadataJson).value,
        HashBefore(rows, i))
  }

  ghost predicate ValidPrefix(codec: Codec, rows: seq<Row>, n: nat)
    requires n <= |rows|
  {
    forall i | 0 <= i < n :: RowOk(codec, rows, i)
  }

  ghost predicate ValidChain(codec: Codec, rows: seq<Row>) {
    ValidPrefix(codec, rows, |rows|)
  }

  /** One organization's rows, in the order of their unique sequence numbers. */
  class Log {
    const organization: Text
    const codec: Codec
    var rows: seq<Row>

    constructor (hash: HashFunction, organization: Text)
      ensures this.organization == organization && codec == CodecOf(hash, organization) && rows == []
    {
      this.organization := organization;
      codec := CodecOf(hash, organization);
      rows := [];
    }

    /** The insert is refused, and nothing changes, when a required field is blank or a unique column repeats. */
    method Append(input: Input) returns (r: Result<Row>)
      modifies this
      ensures r.Ok? <==>
        && organization != [] && Trim(input.action) != [] && Trim(input.entityType) != []
        && NormalizeJson(input.metadata).Some?
        && Unseen(old(rows), NewRow(codec, old(rows), input, NormalizeJson(input.metadata).value))
      ensures r.Ok? ==> r.value == NewRow(codec, old(rows), input, NormalizeJson(input.metadata).value)
      ensures rows == if r.Ok? then old(rows) + [r.value] else old(rows)
    {
      if organization == [] || Trim(input.action) == [] || Trim(input.entityType) == [] {
        return Error;
      }
      var metadata := NormalizeJson(input.metadata);
      if metadata.None? {
        return Error;
      }
      var row := NewRow(codec, rows, input, metadata.value);
      if !Unseen(rows, row) {
        return Error;
      }
      rows := rows + [row];
      return Ok(row);
    }

    /** Recomputes every hash and link: the checked events are the longest valid prefix. */
    method Verify() returns (v: Verification)
      ensures v.checkedEvents <= |rows| && ValidPrefix(codec, rows, v.checkedEvents)
      ensures v.checkedEvents < |rows| ==> !RowOk(codec, rows, v.checkedEvents)
      ensures v.valid <==> ValidChain(codec, rows)
      ensures v.valid <==> v.checkedEvents == |rows|
    {
      hide Genesis;
      var previousHash := Genesis();
      var expectedSequence := 1;
      while expectedSequence <= |rows|
        invariant 1 <= expectedSequence <= |rows| + 1
        invariant previousHash == HashBefore(rows, expectedSequence - 1)
        invariant ValidPrefix(codec, rows, expectedSequence - 1)
      {
        var row := rows[expectedSequence - 1];
        if row.event.sequence != expectedSequence || row.previousHash != previousHash {
          return Verification(false, expectedSequence - 1);
        }
        var metadata := codec.readMetadata(row.metadataJson);
        if metadata.None? {
          return Verification(false, expectedSequence - 1);
        }
        if row.eventHash != codec.hashEvent(row.event, metadata.value, previousHash) {
          return Verification(false, expectedSequence - 1);
        }
        previousHash := row.eventHash;
        expectedSequence := expectedSequence + 1;
      }
      return Verification(true, |rows|);
    }
  }

  // ---------- what a row records ----------

  ghost predicate AllSpace(s: Text) {
    forall i | 0 <= i < |s| :: IsSpace(s[i])
  }

  /** s without the white space around it. */
  ghost predicate IsTrimmed(s: Text, t: Text) {
    && (exists before, after | AllSpace(before) && AllSpace(after) :: s == before + t + after)
    && (t != [] ==> !IsSpace(t[0]) && !IsSpace(t[|t| - 1]))
  }

  lemma {:induction false} TrimmedEnd(s: Text)
    ensures AllSpace(s[|TrimEnd(s)|..])
  {
    hide IsSpace;
    if s != [] && IsSpace(s[|s| - 1]) {
      TrimmedEnd(s[..|s| - 1]);
      var n := |TrimEnd(s)|;
      assert forall i | 0 <= i < |s| - 1 - n :: s[n..][i] == s[..|s| - 1][n..][i];
    }
  }

  lemma TrimIsTrimmed(s: Text)
    ensures IsTrimmed(s, Trim(s))
  {
    hide IsSpace, TrimStart, TrimEnd;
    var t := TrimStart(s);
    TrimmedIsSpace(s);
    TrimmedEnd(t);
    var before, after := s[..|s| - |t|], t[|TrimEnd(t)|..];
    assert AllSpace(before) && AllSpace(after);
    assert t == TrimEnd(t) + after;
    assert s == before + Trim(s) + after;
  }

  /** A row holds the input field by field, with the next number and the last hash, and its metadata in canonical JSON
      from which the caller's value is recovered up to member order. */
  lemma RowRecords(hash: HashFunction, organization: Text, rows: seq<Row>, input: Input, metadata: Json)
    requires NormalizeJson(input.metadata) == Some(metadata)
    ensures var row := NewRow(CodecOf(hash, organization), rows, input, metadata); var e := row.event;
      && (rows == [] ==> e.sequence == 1) && (rows != [] ==> e.sequence == rows[|rows| - 1].event.sequence + 1)
      && e.id == input.id && e.occurredAt == input.occurredAt
      && e.actorType == input.actorType && e.actorUserId == input.actorUserId
      && e.entityId == input.entityId && e.ipAddress == input.ipAddress && e.userAgent == input.userAgent
      && IsTrimmed(input.action, e.action) && IsTrimmed(input.entityType, e.entityType)
      && (rows == [] ==> |row.previousHash| == 64 && forall i | 0 <= i < 64 :: row.previousHash[i] == 0x30)
      && (rows != [] ==> row.previousHash == rows[|rows| - 1].eventHash)
      && row.eventHash == hash(Canonical(HashedObject(organization, e, metadata, row.previousHash)))
      && row.metadataJson == Canonical(metadata)
      && (input.metadata.Data? && WellFormed(input.metadata.json) && input.metadata.json != Null ==>
        Parse(row.metadataJson).Some? && Same(input.metadata.json, Parse(row.metadataJson).value))
  {
    hide AuditPrint, Canonical, Parse, Encode, Same, Trim, IsTrimmed, WellFormed, KeysUnique, HashedObject;
    TrimIsTrimmed(input.action);
    TrimIsTrimmed(input.entityType);
    ZerosRepeat(64);
    MetadataRecorded(input.metadata, metadata);
    var e := NewRow(CodecOf(hash, organization), rows, input, metadata).event;
    ObjectKeysUnique(organization, e, metadata, LastHash(rows));
    AuditPrintIsCanonical(HashedObject(organization, e, metadata, LastHash(rows)));
  }

  ghost predicate Has(hashed: Json, key: string, value: Json) {
    hashed.Obj? && Member(Ascii(key), value) in hashed.members
  }

  /** What is hashed: an object with these fourteen members. */
  lemma HashedObjectHas(organization: Text, e: Event, metadata: Json, previousHash: Text)
    ensures var o := HashedObject(organization, e, metadata, previousHash);
      && |o.members| == 14 && Has(o, "version", Num(1)) && Has(o, "organizationId", Str(organization))
      && Has(o, "sequenceNumber", Num(e.sequence)) && Has(o, "id", Str(e.id)) && Has(o, "actorType", Str(e.actorType))
      && Has(o, "actorUserId", if e.actorUserId.Some? then Str(e.actorUserId.value) else Null)
      && Has(o, "action", Str(e.action)) && Has(o, "entityType", Str(e.entityType))
      && Has(o, "entityId", if e.entityId.Some? then Str(e.entityId.value) else Null)
      && Has(o, "occurredAt", Str(e.occurredAt))
      && Has(o, "ipAddress", if e.ipAddress.Some? then Str(e.ipAddress.value) else Null)
      && Has(o, "userAgent", if e.userAgent.Some? then Str(e.userAgent.value) else Null)
      && Has(o, "metadata", metadata) && Has(o, "previousHash", Str(previousHash))
  {
    hide Ascii;
    var ms := HashedObject(organization, e, metadata, previousHash).members;
    assert ms[0] in ms && ms[1] in ms && ms[2] in ms && ms[3] in ms && ms[4] in ms && ms[5] in ms && ms[6] in ms;
    assert ms[7] in ms && ms[8] in ms && ms[9] in ms && ms[10] in ms && ms[11] in ms && ms[12] in ms && ms[13] in ms;
  }

  lemma {:induction false} ZerosRepeat(n: nat)
    ensures |Repeat(ZERO, n)| == n && forall i | 0 <= i < n :: Repeat(ZERO, n)[i] == 0x30
  {
    if n > 0 {
      ZerosRepeat(n - 1);
    }
  }

  lemma MetadataRecorded(value: Metadata, metadata: Json)
    requires NormalizeJson(value) == Some(metadata)
    ensures KeysUnique(metadata) && AuditPrint(metadata) == Canonical(metadata)
    ensures value.Data? && WellFormed(value.json) && value.json != Null ==>
      Parse(Canonical(metadata)).Some? && Same(value.json, Parse(Canonical(metadata)).value)
  {
    hide AuditPrint, Canonical, Parse, Encode, Same, WellFormed;
    NormalizedIsWellFormed(value, metadata);
    WellFormedKeysUnique(metadata);
    AuditPrintIsCanonical(metadata);
    if value.Data? && WellFormed(value.json) && value.json != Null {
      ParseEncode(value.json);
      ReaderRecovers(metadata);
    }
  }

  lemma NormalizedIsWellFormed(value: Metadata, metadata: Json)
    requires NormalizeJson(value) == Some(metadata)
    ensures WellFormed(metadata)
  {
    hide Parse, Encode;
    match value {
      case Absent => ParseWellFormed(Encode(Obj([])));
      case Data(v) => ParseWellFormed(Encode(if v == Null then Obj([]) else v));
      case Converted(v) => ParseWellFormed(Encode(v));
      case _ =>
    }
  }

  lemma ObjectKeysUnique(organization: Text, e: Event, metadata: Json, previousHash: Text)
    requires KeysUnique(metadata)
    ensures KeysUnique(HashedObject(organization, e, metadata, previousHash))
  {
    HashedKeysUnique();
    var values := HashedValues(organization, e, metadata, previousHash);
    var ms := Members(HashedKeys(), values);
    forall i | 0 <= i < |ms| ensures KeysUnique(ms[i].value) {
      assert ms[i].value == values[i];
    }
  }

  // ---------- what the hash pins down ----------

  /** The keys differ in length or first letter. */
  lemma HashedKeysUnique()
    ensures forall i, j | 0 <= i < j < |HashedKeys()| :: HashedKeys()[i] != HashedKeys()[j]
  {
    var k := HashedKeys();
    assert |k[0]| == 7 && |k[1]| == 14 && |k[2]| == 14 && |k[3]| == 2 && |k[4]| == 9;
    assert |k[5]| == 11 && |k[6]| == 6 && |k[7]| == 10 && |k[8]| == 8 && |k[9]| == 10;
    assert |k[10]| == 9 && |k[11]| == 9 && |k[12]| == 8 && |k[13]| == 12;
    assert k[1][0] == 0x6F && k[2][0] == 0x73;
    assert k[4][0] == 0x61 && k[10][0] == 0x69 && k[11][0] == 0x75;
    assert k[7][0] == 0x65 && k[9][0] == 0x6F;
    assert k[8][0] == 0x65 && k[12][0] == 0x6D;
  }

  /** Objects over the same distinct keys are the same exactly when they are value by value. */
  lemma SameByPosition(keys: seq<Text>, vs: seq<Json>, ws: seq<Json>)
    requires |keys| == |vs| == |ws|
    requires forall i, j | 0 <= i < j < |keys| :: keys[i] != keys[j]
    requires forall k | 0 <= k < |keys| :: WellFormed(vs[k]) && WellFormed(ws[k])
    ensures Same(Obj(Members(keys, vs)), Obj(Members(keys, ws))) <==> forall k | 0 <= k < |keys| :: Same(vs[k], ws[k])
  {
    var ms, ns := Members(keys, vs), Members(keys, ws);
    if Same(Obj(ms), Obj(ns)) {
      assert Covered(ms, ns);
      forall k | 0 <= k < |keys| ensures Same(vs[k], ws[k]) {
        var j :| 0 <= j < |ns| && ms[k].key == ns[j].key && Same(ms[k].value, ns[j].value);
        assert j == k;
      }
    }
    if forall k | 0 <= k < |keys| :: Same(vs[k], ws[k]) {
      SameMemberwise(ms, ns);
    }
  }

  predicate Hashable(e: Event, metadata: Json) {
    -MAX_SAFE_INTEGER <= e.sequence <= MAX_SAFE_INTEGER && WellFormed(metadata)
  }

  lemma HashedObjectWellFormed(organization: Text, e: Event, m: Json, p: Text)
    requires Hashable(e, m)
    ensures WellFormed(HashedObject(organization, e, m, p))
    ensures forall k | 0 <= k < |HashedValues(organization, e, m, p)| ::
        WellFormed(HashedValues(organization, e, m, p)[k])
  {
    HashedKeysUnique();
    var vs := HashedValues(organization, e, m, p);
    assert forall k | 0 <= k < |vs| :: WellFormed(vs[k]);
  }

  /** All values but the metadata are scalars, and they hold every field of the event. */
  lemma ScalarFields(organization: Text, e: Event, p: Text, f: Event, q: Text)
    ensures HashedValues(organization, e, Null, p) == HashedValues(organization, f, Null, q) <==> e == f && p == q
  {
    var vs, ws := HashedValues(organization, e, Null, p), HashedValues(organization, f, Null, q);
    if vs == ws {
      assert vs[2] == ws[2] && vs[3] == ws[3] && vs[4] == ws[4] && vs[5] == ws[5] && vs[6] == ws[6] && vs[7] == ws[7];
      assert vs[8] == ws[8] && vs[9] == ws[9] && vs[10] == ws[10] && vs[11] == ws[11] && vs[13] == ws[13];
    }
  }

  lemma MetadataPlace(organization: Text, e: Event, m: Json, p: Text)
    ensures var vs := HashedValues(organization, e, m, p);
      && |vs| == 14 && vs[12] == m && vs[12 := Null] == HashedValues(organization, e, Null, p)
      && forall k | 0 <= k < 14 && k != 12 :: !vs[k].Arr? && !vs[k].Obj?
  {
  }

  lemma FieldsByPosition(vs: seq<Json>, ws: seq<Json>)
    requires |vs| == |ws| == 14
    requires forall k | 0 <= k < 14 && k != 12 :: !vs[k].Arr? && !vs[k].Obj?
    ensures (forall k | 0 <= k < 14 :: Same(vs[k], ws[k])) <==> vs[12 := Null] == ws[12 := Null] && Same(vs[12], ws[12])
  {
    assert forall k | 0 <= k < 14 && k != 12 :: Same(vs[k], ws[k]) <==> vs[k] == ws[k];
    if vs[12 := Null] == ws[12 := Null] {
      forall k | 0 <= k < 14 && k != 12 ensures vs[k] == ws[k] {
        assert vs[12 := Null][k] == ws[12 := Null][k];
      }
    }
  }

  lemma KeyCount()
    ensures |HashedKeys()| == 14
  {
  }

  lemma HashedObjectsSame(organization: Text, e: Event, m: Json, p: Text, f: Event, n: Json, q: Text)
    requires Hashable(e, m) && Hashable(f, n)
    ensures Same(HashedObject(organization, e, m, p), HashedObject(organization, f, n, q)) <==>
        e == f && p == q && Same(m, n)
  {
    hide HashedValues, HashedKeys, Same, WellFormed;
    HashedObjectWellFormed(organization, e, m, p);
    HashedObjectWellFormed(organization, f, n, q);
    KeyCount();
    var vs, ws := HashedValues(organization, e, m, p), HashedValues(organization, f, n, q);
    HashedKeysUnique();
    MetadataPlace(organization, e, m, p);
    MetadataPlace(organization, f, n, q);
    SameByPosition(HashedKeys(), vs, ws);
    FieldsByPosition(vs, ws);
    ScalarFields(organization, e, p, f, q);
  }

  lemma AuditTextDecidesSame(v: Json, w: Json)
    requires WellFormed(v) && WellFormed(w)
    ensures AuditPrint(v) == AuditPrint(w) <==> Same(v, w)
  {
    WellFormedKeysUnique(v);
    WellFormedKeysUnique(w);
    AuditPrintIsCanonical(v);
    AuditPrintIsCanonical(w);
    CanonicalDecidesSame(v, w);
  }

  /** Equal hashes mean equal fields, equal links and the same metadata up to member order. */
  ghost predicate Pins(hashEvent: EventHash) {
    forall e, m, p, f, n, q | Hashable(e, m) && Hashable(f, n) && hashEvent(e, m, p) == hashEvent(f, n, q) ::
      e == f && p == q && Same(m, n)
  }

  /** The hashed text determines every hashed field, and does not depend on the metadata's member order. */
  lemma InjectiveHashPins(hash: HashFunction, organization: Text)
    ensures Injective(hash) ==> Pins(HashEvent(hash, organization))
    ensures forall e, m, p, n | Hashable(e, m) && Hashable(e, n) && Same(m, n) ::
      HashEvent(hash, organization)(e, m, p) == HashEvent(hash, organization)(e, n, p)
  {
    forall e, m, p, f, n, q | Hashable(e, m) && Hashable(f, n)
      ensures AuditPrint(HashedObject(organization, e, m, p)) == AuditPrint(HashedObject(organization, f, n, q))
         <==> e == f && p == q && Same(m, n)
    {
      HashedObjectWellFormed(organization, e, m, p);
      HashedObjectWellFormed(organization, f, n, q);
      AuditTextDecidesSame(HashedObject(organization, e, m, p), HashedObject(organization, f, n, q));
      HashedObjectsSame(organization, e, m, p, f, n, q);
    }
  }

  lemma {:induction false} WellFormedKeysUnique(v: Json)
    requires WellFormed(v)
    ensures KeysUnique(v)
  {
    match v {
      case Arr(items) =>
        forall i | 0 <= i < |items| ensures KeysUnique(items[i]) {
          WellFormedKeysUnique(items[i]);
        }
      case Obj(ms) =>
        forall i | 0 <= i < |ms| ensures KeysUnique(ms[i].value) {
          WellFormedKeysUnique(ms[i].value);
        }
      case _ =>
    }
  }

  // ---------- chains built by appends ----------

  /** The rows that a run of accepted appends leaves in an empty log, given each one's normalised metadata. */
  ghost predicate BuiltBy(codec: Codec, rows: seq<Row>, inputs: seq<Input>, metadata: seq<Json>) {
    |rows| == |inputs| == |metadata|
        && forall i | 0 <= i < |rows| :: rows[i] == NewRow(codec, rows[..i], inputs[i], metadata[i])
  }

  /** What an accepted append does to the rows extends such a run by one. */
  lemma AppendExtends(codec: Codec, rows: seq<Row>, inputs: seq<Input>, metadata: seq<Json>, input: Input, m: Json)
    requires BuiltBy(codec, rows, inputs, metadata)
    ensures BuiltBy(codec, rows + [NewRow(codec, rows, input, m)], inputs + [input], metadata + [m])
  {
    hide NewRow;
    var longer := rows + [NewRow(codec, rows, input, m)];
    forall i | 0 <= i < |longer|
      ensures longer[i] == NewRow(codec, longer[..i], (inputs + [input])[i], (metadata + [m])[i])
    {
      assert longer[..i] == rows[..i];
      assert rows[..|rows|] == rows;
    }
  }

  ghost predicate Normalised(inputs: seq<Input>, metadata: seq<Json>) {
    |inputs| == |metadata| && forall i | 0 <= i < |inputs| :: NormalizeJson(inputs[i].metadata) == Some(metadata[i])
  }

  lemma {:induction false} SequencesCount(codec: Codec, rows: seq<Row>, inputs: seq<Input>, metadata: seq<Json>, n: nat)
    requires BuiltBy(codec, rows, inputs, metadata) && n <= |rows|
    ensures NextSequence(rows[..n]) == n + 1
  {
    hide NewRow;
    if n > 0 {
      SequencesCount(codec, rows, inputs, metadata, n - 1);
      NewRowSequence(codec, rows[..n - 1], inputs[n - 1], metadata[n - 1]);
      assert rows[..n][n - 1] == rows[n - 1];
    }
  }

  lemma NewRowSequence(codec: Codec, rows: seq<Row>, input: Input, m: Json)
    ensures NewRow(codec, rows, input, m).event.sequence == NextSequence(rows)
  {
    hide AuditPrint, Trim;
  }

  /** Null metadata is the one value that is read back as another. */
  lemma StoredReadsBack(m: Json)
    requires WellFormed(m)
    ensures StoredMetadata(AuditPrint(m)) == Some(if m == Null then Obj([]) else Normal(m))
  {
    hide WellFormed, AuditPrint, Same;
    WellFormedKeysUnique(m);
    AuditPrintIsCanonical(m);
    ReaderRecovers(m);
    NormalWellFormed(m);
    ParseEncode(Normal(m));
    ParseEncode(Obj([]));
  }

  /** A printed value reads back as null exactly when it is null or a number that is not finite. */
  lemma NullText(v: Json)
    ensures Parse(Encode(v)) == Some(Null) <==> v == Null || v == NonFinite
  {
    hide SkipBlank, WellFormed, ReadItems, ReadMembers, ReadUnits;
    if v == Null || v == NonFinite {
      ParseEncode(Null);
      assert Encode(NonFinite) == Encode(Null);
    } else {
      OnlyNullStartsSo(v);
      NoBlankAhead(v);
    }
  }

  /** Metadata normalises to null exactly when it is printed as null although it is not null itself. */
  lemma NullMetadata(metadata: Metadata)
    ensures NormalizeJson(metadata) == Some(Null) <==> BecomesNull(metadata)
  {
    hide Parse, Encode;
    NullText(Obj([]));
    if metadata.Data? || metadata.Converted? {
      NullText(metadata.json);
    }
  }

  lemma NormalizedWellFormed(value: Metadata)
    ensures NormalizeJson(value).Some? ==> WellFormed(NormalizeJson(value).value)
  {
    hide Parse, Encode;
    ParseWellFormed(Encode(Obj([])));
    if value.Data? || value.Converted? {
      ParseWellFormed(Encode(value.json));
    }
  }

  lemma StoredWellFormed(t: Text)
    ensures StoredMetadata(t).Some? ==> WellFormed(StoredMetadata(t).value)
  {
    match Parse(t) {
      case None =>
      case Some(v) => NormalizedWellFormed(Data(v));
    }
  }

  /** The hash taken at append time and the hash a verifier recomputes from the stored text. */
  lemma RecomputedHash(hash: HashFunction, organization: Text, e: Event, m: Json, p: Text)
    requires Hashable(e, m)
    ensures var readBack := StoredMetadata(AuditPrint(m));
      && readBack.Some?
      && (m != Null ==> HashEvent(hash, organization)(e, readBack.value, p) == HashEvent(hash, organization)(e, m, p))
      && (m == Null && Injective(hash) ==>
            HashEvent(hash, organization)(e, readBack.value, p) != HashEvent(hash, organization)(e, m, p))
  {
    hide StoredMetadata, AuditPrint, Injective;
    StoredReadsBack(m);
    InjectiveHashPins(hash, organization);
    if m != Null {
      ReaderRecovers(m);
      NormalWellFormed(m);
      assert Hashable(e, Normal(m));
    } else {
      assert Hashable(e, Obj([])) && !Same(m, Obj([]));
    }
  }

  lemma AppendedRow(codec: Codec, rows: seq<Row>, inputs: seq<Input>, metadata: seq<Json>, i: nat)
    requires BuiltBy(codec, rows, inputs, metadata) && i < |rows|
    requires codec.readMetadata(AuditPrint(metadata[i])).Some?
    ensures rows[i].event.sequence == i + 1
    ensures RowOk(codec, rows, i) <==>
      codec.hashEvent(rows[i].event, codec.readMetadata(AuditPrint(metadata[i])).value, HashBefore(rows, i))
      == codec.hashEvent(rows[i].event, metadata[i], HashBefore(rows, i))
  {
    hide AuditPrint, Trim, Genesis;
    SequencesCount(codec, rows, inputs, metadata, i);
    assert rows[i] == NewRow(codec, rows[..i], inputs[i], metadata[i]);
    assert HashBefore(rows, i) == LastHash(rows[..i]);
  }

  lemma AppendedRowOk(hash: HashFunction, organization: Text, rows: seq<Row>, inputs: seq<Input>, metadata: seq<Json>,
      i: nat)
    requires BuiltBy(CodecOf(hash, organization), rows, inputs, metadata) && i < |rows| <= MAX_SAFE_INTEGER
    requires WellFormed(metadata[i])
    ensures metadata[i] != Null ==> RowOk(CodecOf(hash, organization), rows, i)
    ensures Injective(hash) && metadata[i] == Null ==> !RowOk(CodecOf(hash, organization), rows, i)
  {
    hide AuditPrint, StoredMetadata, RowOk, Injective, HashEvent, NewRow, NormalizeJson, WellFormed;
    StoredReadsBack(metadata[i]);
    AppendedRow(CodecOf(hash, organization), rows, inputs, metadata, i);
    RecomputedHash(hash, organization, rows[i].event, metadata[i], HashBefore(rows, i));
  }

  /** A chain built only by appends verifies unless some append was given metadata that is printed as null although
      it is not null itself; with an injective hash that is exactly when it does not. */
  lemma AppendedChainsVerify(hash: HashFunction, organization: Text, rows: seq<Row>, inputs: seq<Input>,
      metadata: seq<Json>)
    requires Normalised(inputs, metadata) && BuiltBy(CodecOf(hash, organization), rows, inputs, metadata)
    requires |rows| <= MAX_SAFE_INTEGER
    ensures (forall i | 0 <= i < |inputs| :: !BecomesNull(inputs[i].metadata)) ==>
        ValidChain(CodecOf(hash, organization), rows)
    ensures Injective(hash) ==>
      (ValidChain(CodecOf(hash, organization), rows) <==>
          forall i | 0 <= i < |inputs| :: !BecomesNull(inputs[i].metadata))
  {
    forall i | 0 <= i < |rows|
      ensures !BecomesNull(inputs[i].metadata) ==> RowOk(CodecOf(hash, organization), rows, i)
      ensures Injective(hash) && BecomesNull(inputs[i].metadata) ==> !RowOk(CodecOf(hash, organization), rows, i)
    {
      NullMetadata(inputs[i].metadata);
      NormalizedWellFormed(inputs[i].metadata);
      AppendedRowOk(hash, organization, rows, inputs, metadata, i);
    }
  }

  // ---------- the last hash commits to the whole chain ----------

  /** Row i of one chain and row j of another agree on everything that is hashed. */
  ghost predicate RowsAgree(codec: Codec, a: Row, b: Row) {
    && a.event == b.event && a.previousHash == b.previousHash && a.eventHash == b.eventHash
    && codec.readMetadata(a.metadataJson).Some? && codec.readMetadata(b.metadataJson).Some?
    && Same(codec.readMetadata(a.metadataJson).value, codec.readMetadata(b.metadataJson).value)
  }

  ghost predicate ReadsWellFormed(codec: Codec) {
    forall t | codec.readMetadata(t).Some? :: WellFormed(codec.readMetadata(t).value)
  }

  lemma EqualHashesAgree(codec: Codec, a: seq<Row>, i: nat, b: seq<Row>, j: nat)
    requires Pins(codec.hashEvent) && ReadsWellFormed(codec)
    requires i < |a| <= MAX_SAFE_INTEGER && j < |b| <= MAX_SAFE_INTEGER
    requires RowOk(codec, a, i) && RowOk(codec, b, j) && a[i].eventHash == b[j].eventHash
    ensures i == j && RowsAgree(codec, a[i], b[j]) && HashBefore(a, i) == HashBefore(b, j)
  {
    var m, n := codec.readMetadata(a[i].metadataJson).value, codec.readMetadata(b[j].metadataJson).value;
    assert Hashable(a[i].event, m) && Hashable(b[j].event, n);
    assert codec.hashEvent(a[i].event, m, HashBefore(a, i)) == codec.hashEvent(b[j].event, n, HashBefore(b, j));
  }

  lemma {:induction false} PrefixesAgree(codec: Codec, a: seq<Row>, b: seq<Row>, n: nat)
    requires Pins(codec.hashEvent) && ReadsWellFormed(codec)
    requires ValidChain(codec, a) && ValidChain(codec, b)
    requires n < |a| <= MAX_SAFE_INTEGER && n < |b| <= MAX_SAFE_INTEGER && a[n].eventHash == b[n].eventHash
    ensures forall k | 0 <= k <= n :: RowsAgree(codec, a[k], b[k])
  {
    hide RowsAgree, Pins, ReadsWellFormed, RowOk;
    EqualHashesAgree(codec, a, n, b, n);
    if n > 0 {
      PrefixesAgree(codec, a, b, n - 1);
    }
  }

  lemma LastHashCommitsTo(codec: Codec, a: seq<Row>, b: seq<Row>)
    requires Pins(codec.hashEvent) && ReadsWellFormed(codec) && ValidChain(codec, a) && ValidChain(codec, b)
    requires 0 < |a| <= MAX_SAFE_INTEGER && 0 < |b| <= MAX_SAFE_INTEGER && LastHash(a) == LastHash(b)
    ensures |a| == |b| && forall k | 0 <= k < |a| :: RowsAgree(codec, a[k], b[k])
  {
    hide Genesis, Pins, ReadsWellFormed, RowOk;
    EqualHashesAgree(codec, a, |a| - 1, b, |b| - 1);
    PrefixesAgree(codec, a, b, |a| - 1);
  }

  /** With an injective hash, two verified chains that end in the same hash are the same chain: equal
      length, equal hashed fields, and the same metadata up to the order of object members. */
  lemma LastHashCommits(hash: HashFunction, organization: Text, a: seq<Row>, b: seq<Row>)
    requires Injective(hash)
    requires ValidChain(CodecOf(hash, organization), a) && ValidChain(CodecOf(hash, organization), b)
    requires 0 < |a| <= MAX_SAFE_INTEGER && 0 < |b| <= MAX_SAFE_INTEGER && LastHash(a) == LastHash(b)
    ensures |a| == |b| && forall k | 0 <= k < |a| :: RowsAgree(CodecOf(hash, organization), a[k], b[k])
  {
    var codec := CodecOf(hash, organization);
    InjectiveHashPins(hash, organization);
    forall t | codec.readMetadata(t).Some? ensures WellFormed(codec.readMetadata(t).value) {
      StoredWellFormed(t);
    }
    LastHashCommitsTo(codec, a, b);
  }
}
