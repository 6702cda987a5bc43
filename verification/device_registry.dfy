/**
 The device registry of the console's devices API: the record shapes, the
 JavaScript truthiness checks the handlers use for validation, the linear
 lookups by id, and the shallow object merge of an update.
 */
module DeviceRegistry {
  import opened Wrappers

  /** A registered device as stored in the registry document. Every declared
      key is present except the optional free-text description. */
  datatype Device = Device(
    id: string,
    name: string,
    ip: string,
    port: int,
    osType: string,
    status: string,
    description: Option<string>)

  /** A request body: a JSON object in which any of the device keys may be
      absent (`None`) or present (`Some`), whatever its value. */
  datatype Payload = Payload(
    id: Option<string>,
    name: Option<string>,
    ip: Option<string>,
    port: Option<int>,
    osType: Option<string>,
    status: Option<string>,
    description: Option<string>)

  /** The registry document: devices in insertion order. */
  type Registry = seq<Device>

  /** Status given to a created device whose request carries none. */
  const DefaultStatus: string := "STOPPED"

  /** JavaScript truthiness of an optional string key: present and non-empty. */
  predicate Given(o: Option<string>) {
    o.Some? && o.value != ""
  }

  /** JavaScript truthiness of an optional number key: present and non-zero. */
  predicate GivenPort(o: Option<int>) {
    o.Some? && o.value != 0
  }

  /** The create handler's required-field check. */
  predicate HasRequiredFields(p: Payload) {
    Given(p.id) && Given(p.name) && Given(p.ip) && GivenPort(p.port) && Given(p.osType)
  }

  /** Some record of the registry carries `id`. */
  ghost predicate HasId(reg: Registry, id: string) {
    exists k :: 0 <= k < |reg| && reg[k].id == id
  }

  /** No two records of the registry share an id. */
  ghost predicate UniqueIds(reg: Registry) {
    forall i, j :: 0 <= i < j < |reg| ==> reg[i].id != reg[j].id
  }

  /** `devices.some(d => d.id === id)`. */
  function AnyWithId(reg: Registry, id: string): (b: bool)
    ensures b <==> HasId(reg, id)
  {
    if |reg| == 0 then false
    else if reg[0].id == id then true
    else AnyWithId(reg[1..], id)
  }

  /** `devices.findIndex(d => d.id === id)`: the position of the first record
      carrying `id`, or -1 when there is none. */
  function FindIndex(reg: Registry, id: string): (i: int)
    ensures -1 <= i < |reg|
    ensures i == -1 <==> !HasId(reg, id)
    ensures 0 <= i ==> reg[i].id == id && forall k :: 0 <= k < i ==> reg[k].id != id
  {
    if |reg| == 0 then -1
    else if reg[0].id == id then 0
    else
      var j := FindIndex(reg[1..], id);
      if j == -1 then -1 else j + 1
  }

  /** The record a successful create appends: the request's fields, with the
      status defaulted when the request's status is absent or empty. */
  function NewDevice(p: Payload): (d: Device)
    requires HasRequiredFields(p)
    ensures d.id == p.id.value && d.name == p.name.value && d.ip == p.ip.value
    ensures d.port == p.port.value && d.osType == p.osType.value
    ensures d.description == p.description
    ensures Given(p.status) ==> d.status == p.status.value
    ensures !Given(p.status) ==> d.status == DefaultStatus
  {
    Device(p.id.value, p.name.value, p.ip.value, p.port.value, p.osType.value,
           if Given(p.status) then p.status.value else DefaultStatus,
           p.description)
  }

  /** `{ ...d, ...p }`: every key present in the payload overrides, whatever its
      value; every absent key keeps the record's value. */
  function Merge(d: Device, p: Payload): Device {
    Device(p.id.GetOr(d.id), p.name.GetOr(d.name), p.ip.GetOr(d.ip),
           p.port.GetOr(d.port), p.osType.GetOr(d.osType), p.status.GetOr(d.status),
           if p.description.Some? then p.description else d.description)
  }

  /** `{ ...p, ...q }` on two payloads: the keys of `q` win. */
  function Combine(p: Payload, q: Payload): Payload {
    Payload(
      if q.id.Some? then q.id else p.id,
      if q.name.Some? then q.name else p.name,
      if q.ip.Some? then q.ip else p.ip,
      if q.port.Some? then q.port else p.port,
      if q.osType.Some? then q.osType else p.osType,
      if q.status.Some? then q.status else p.status,
      if q.description.Some? then q.description else p.description)
  }

  /** The payload that carries only an id. */
  function IdOnly(id: string): Payload {
    Payload(Some(id), None, None, None, None, None, None)
  }

  /** The registry with the record at `i` removed, the rest in order
      (`devices.splice(i, 1)`). */
  function RemoveAt(reg: Registry, i: int): (r: Registry)
    requires 0 <= i < |reg|
    ensures |r| == |reg| - 1
    ensures forall k :: 0 <= k < i ==> r[k] == reg[k]
    ensures forall k :: i <= k < |r| ==> r[k] == reg[k + 1]
    ensures multiset(r) + multiset{reg[i]} == multiset(reg)
  {
    assert reg == reg[..i] + [reg[i]] + reg[i + 1..];
    reg[..i] + reg[i + 1..]
  }

  /** With unique ids, the first record carrying an id is the only one. */
  lemma FindIndexOfUnique(reg: Registry, k: int)
    requires UniqueIds(reg)
    requires 0 <= k < |reg|
    ensures FindIndex(reg, reg[k].id) == k
  {
  }

  /** The meaning of `Merge`: for each of the seven keys, the record's value
      is kept when the payload lacks the key and the payload's value is taken
      when it has it. */
  lemma MergeKeys(d: Device, p: Payload)
    ensures p.id.None? ==> Merge(d, p).id == d.id
    ensures p.id.Some? ==> Merge(d, p).id == p.id.value
    ensures p.name.None? ==> Merge(d, p).name == d.name
    ensures p.name.Some? ==> Merge(d, p).name == p.name.value
    ensures p.ip.None? ==> Merge(d, p).ip == d.ip
    ensures p.ip.Some? ==> Merge(d, p).ip == p.ip.value
    ensures p.port.None? ==> Merge(d, p).port == d.port
    ensures p.port.Some? ==> Merge(d, p).port == p.port.value
    ensures p.osType.None? ==> Merge(d, p).osType == d.osType
    ensures p.osType.Some? ==> Merge(d, p).osType == p.osType.value
    ensures p.status.None? ==> Merge(d, p).status == d.status
    ensures p.status.Some? ==> Merge(d, p).status == p.status.value
    ensures p.description.None? ==> Merge(d, p).description == d.description
    ensures p.description.Some? ==> Merge(d, p).description == p.description
  {
  }

  /** A payload that carries only the record's own id changes nothing. */
  lemma MergeIdOnlyIsIdentity(d: Device)
    ensures Merge(d, IdOnly(d.id)) == d
  {
  }

  /** Merging the same payload twice is merging it once. */
  lemma MergeIdempotent(d: Device, p: Payload)
    ensures Merge(Merge(d, p), p) == Merge(d, p)
  {
  }

  /** Two successive merges are one merge of the combined payload. */
  lemma MergeCompose(d: Device, p: Payload, q: Payload)
    ensures Merge(Merge(d, p), q) == Merge(d, Combine(p, q))
  {
  }
}
