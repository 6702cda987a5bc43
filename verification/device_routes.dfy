/**
 The four handlers of the devices API as pure transformers of the registry:
 each takes the loaded registry, the request and whether the final save
 succeeds, and yields the reply together with the registry that is persisted
 afterwards.
 */
module DeviceRoutes {
  import opened Wrappers
  import opened DeviceRegistry

  /** Why a request was refused. */
  datatype Reason = MissingFields | DuplicateId | MissingId | UnknownId | SaveFailed

  /** The reply of a handler. */
  datatype Reply =
    | Listed(devices: Registry)
    | Created(echo: Payload)
    | Updated(device: Device)
    | Deleted
    | Rejected(reason: Reason)

  /** A handler's reply and the registry persisted once it has answered. */
  datatype Outcome = Outcome(reply: Reply, registry: Registry)

  /** The HTTP status of a reply. */
  function StatusCode(r: Reply): int {
    match r
    case Rejected(UnknownId) => 404
    case Rejected(SaveFailed) => 500
    case Rejected(_) => 400
    case _ => 200
  }

  /** The save step shared by the mutating handlers: on success the new
      registry is persisted and `ok` answered; on failure the handler answers
      500 and the document keeps its pre-request contents. */
  function Commit(reg: Registry, next: Registry, ok: Reply, saveOk: bool): Outcome {
    if saveOk then Outcome(ok, next) else Outcome(Rejected(SaveFailed), reg)
  }

  /** GET: the whole registry, unchanged. */
  function List(reg: Registry): (o: Outcome)
    ensures StatusCode(o.reply) == 200
    ensures o.reply.Listed? && o.reply.devices == reg
    ensures o.registry == reg
  {
    Outcome(Listed(reg), reg)
  }

  /** POST: validate the required fields, refuse a taken id, then append the
      record with its status defaulted and echo the request body. */
  function Create(reg: Registry, p: Payload, saveOk: bool): (o: Outcome)
    ensures StatusCode(o.reply) in {200, 400, 500}
    ensures StatusCode(o.reply) != 200 ==> o.registry == reg
    ensures !HasRequiredFields(p) ==> o.reply == Rejected(MissingFields)
    ensures HasRequiredFields(p) && HasId(reg, p.id.value) ==> o.reply == Rejected(DuplicateId)
    ensures HasRequiredFields(p) && !HasId(reg, p.id.value) && !saveOk ==>
              o.reply == Rejected(SaveFailed)
    ensures StatusCode(o.reply) == 200 <==>
              HasRequiredFields(p) && !HasId(reg, p.id.value) && saveOk
    ensures HasRequiredFields(p) && !HasId(reg, p.id.value) && saveOk ==>
              && o.reply == Created(p)
              && |o.registry| == |reg| + 1
              && o.registry[..|reg|] == reg
              && o.registry[|reg|] == NewDevice(p)
  {
    if !HasRequiredFields(p) then Outcome(Rejected(MissingFields), reg)
    else if AnyWithId(reg, p.id.value) then Outcome(Rejected(DuplicateId), reg)
    else Commit(reg, reg + [NewDevice(p)], Created(p), saveOk)
  }

  /** PUT: require an id, find the first record carrying it, and merge the
      request body over that record. */
  function Update(reg: Registry, p: Payload, saveOk: bool): (o: Outcome)
    ensures StatusCode(o.reply) in {200, 400, 404, 500}
    ensures StatusCode(o.reply) != 200 ==> o.registry == reg
    ensures !Given(p.id) ==> o.reply == Rejected(MissingId)
    ensures Given(p.id) && !HasId(reg, p.id.value) ==> o.reply == Rejected(UnknownId)
    ensures Given(p.id) && HasId(reg, p.id.value) && !saveOk ==> o.reply == Rejected(SaveFailed)
    ensures StatusCode(o.reply) == 200 <==> Given(p.id) && HasId(reg, p.id.value) && saveOk
    ensures Given(p.id) && HasId(reg, p.id.value) && saveOk ==>
              var i := FindIndex(reg, p.id.value);
              && |o.registry| == |reg|
              && o.registry[i] == Merge(reg[i], p)
              && o.registry[i].id == reg[i].id
              && o.reply == Updated(o.registry[i])
              && (forall k :: 0 <= k < |reg| && k != i ==> o.registry[k] == reg[k])
  {
    if !Given(p.id) then Outcome(Rejected(MissingId), reg)
    else
      var i := FindIndex(reg, p.id.value);
      if i == -1 then Outcome(Rejected(UnknownId), reg)
      else
        var merged := Merge(reg[i], p);
        Commit(reg, reg[i := merged], Updated(merged), saveOk)
  }

  /** DELETE: require the `id` query parameter, find the first record carrying
      it and remove that record. */
  function Delete(reg: Registry, id: Option<string>, saveOk: bool): (o: Outcome)
    ensures StatusCode(o.reply) in {200, 400, 404, 500}
    ensures StatusCode(o.reply) != 200 ==> o.registry == reg
    ensures !Given(id) ==> o.reply == Rejected(MissingId)
    ensures Given(id) && !HasId(reg, id.value) ==> o.reply == Rejected(UnknownId)
    ensures Given(id) && HasId(reg, id.value) && !saveOk ==> o.reply == Rejected(SaveFailed)
    ensures StatusCode(o.reply) == 200 <==> Given(id) && HasId(reg, id.value) && saveOk
    ensures Given(id) && HasId(reg, id.value) && saveOk ==>
              var i := FindIndex(reg, id.value);
              && o.reply == Deleted
              && |o.registry| == |reg| - 1
              && (forall k :: 0 <= k < i ==> o.registry[k] == reg[k])
              && (forall k :: i <= k < |o.registry| ==> o.registry[k] == reg[k + 1])
              && multiset(o.registry) + multiset{reg[i]} == multiset(reg)
  {
    if !Given(id) then Outcome(Rejected(MissingId), reg)
    else
      var i := FindIndex(reg, id.value);
      if i == -1 then Outcome(Rejected(UnknownId), reg)
      else Commit(reg, RemoveAt(reg, i), Deleted, saveOk)
  }

  /** A successful create keeps the ids of a registry with unique ids unique. */
  lemma CreateKeepsIdsUnique(reg: Registry, p: Payload, saveOk: bool)
    requires UniqueIds(reg)
    ensures UniqueIds(Create(reg, p, saveOk).registry)
  {
    var o := Create(reg, p, saveOk);
    if StatusCode(o.reply) == 200 {
      forall i, j | 0 <= i < j < |o.registry|
        ensures o.registry[i].id != o.registry[j].id
      {
        if j == |reg| {
          assert o.registry[i] == reg[i];
        } else {
          assert o.registry[i] == reg[i] && o.registry[j] == reg[j];
        }
      }
    }
  }

  /** An update never changes any record's id, so it keeps ids unique. */
  lemma UpdateKeepsIdsUnique(reg: Registry, p: Payload, saveOk: bool)
    requires UniqueIds(reg)
    ensures UniqueIds(Update(reg, p, saveOk).registry)
  {
    var o := Update(reg, p, saveOk);
    if StatusCode(o.reply) == 200 {
      assert forall k :: 0 <= k < |reg| ==> o.registry[k].id == reg[k].id;
    }
  }

  /** A delete keeps the ids of a registry with unique ids unique. */
  lemma DeleteKeepsIdsUnique(reg: Registry, id: Option<string>, saveOk: bool)
    requires UniqueIds(reg)
    ensures UniqueIds(Delete(reg, id, saveOk).registry)
  {
    var o := Delete(reg, id, saveOk);
    if StatusCode(o.reply) == 200 {
      var i := FindIndex(reg, id.value);
      forall a, b | 0 <= a < b < |o.registry|
        ensures o.registry[a].id != o.registry[b].id
      {
        var a' := if a < i then a else a + 1;
        var b' := if b < i then b else b + 1;
        assert o.registry[a] == reg[a'] && o.registry[b] == reg[b'];
      }
    }
  }

  /** After a successful create, listing shows the new device, with the
      default status when the request gave none. */
  lemma CreateThenListShowsDevice(reg: Registry, p: Payload)
    requires HasRequiredFields(p) && !HasId(reg, p.id.value)
    ensures var listed := List(Create(reg, p, true).registry).reply.devices;
            && |listed| == |reg| + 1
            && listed[|reg|].id == p.id.value
            && (!Given(p.status) ==> listed[|reg|].status == DefaultStatus)
            && HasId(listed, p.id.value)
  {
    var listed := List(Create(reg, p, true).registry).reply.devices;
    assert listed[|reg|].id == p.id.value;
  }

  /** The create reply echoes the request body, not the stored record: when the
      request has no status the stored record has "STOPPED" but the echo does
      not. */
  lemma CreateEchoesRequest(reg: Registry, p: Payload)
    requires HasRequiredFields(p) && !HasId(reg, p.id.value)
    requires p.status == None
    ensures var o := Create(reg, p, true);
            && o.reply.Created?
            && o.reply.echo.status == None
            && o.registry[|reg|].status == DefaultStatus
  {
  }

  /** Deleting the id a create just added gives back the original registry. */
  lemma CreateThenDeleteRestores(reg: Registry, p: Payload)
    requires HasRequiredFields(p) && !HasId(reg, p.id.value)
    ensures Delete(Create(reg, p, true).registry, p.id, true) == Outcome(Deleted, reg)
  {
    var next := Create(reg, p, true).registry;
    assert next == reg + [NewDevice(p)];
    assert FindIndex(next, p.id.value) == |reg| by {
      assert forall k :: 0 <= k < |reg| ==> next[k] == reg[k];
    }
    assert RemoveAt(next, |reg|) == reg;
  }

  /** In a registry with unique ids, a successful delete leaves no record with
      the deleted id, so a later listing omits it. */
  lemma DeleteThenListOmits(reg: Registry, id: string)
    requires UniqueIds(reg) && HasId(reg, id) && id != ""
    ensures !HasId(List(Delete(reg, Some(id), true).registry).reply.devices, id)
  {
    var i := FindIndex(reg, id);
    var next := Delete(reg, Some(id), true).registry;
    forall k | 0 <= k < |next|
      ensures next[k].id != id
    {
      if k >= i {
        assert next[k] == reg[k + 1];
      }
    }
  }

  /** Applying the same successful update twice leaves what one update left. */
  lemma UpdateIdempotent(reg: Registry, p: Payload)
    requires Given(p.id) && HasId(reg, p.id.value)
    ensures var once := Update(reg, p, true).registry;
            Update(once, p, true).registry == once
  {
    var i := FindIndex(reg, p.id.value);
    var once := Update(reg, p, true).registry;
    assert forall k :: 0 <= k < |reg| ==> once[k].id == reg[k].id;
    assert FindIndex(once, p.id.value) == i;
    MergeIdempotent(reg[i], p);
  }

  /** Updating with a payload that carries only an id leaves the registry as
      it was. */
  lemma UpdateIdOnlyIsIdentity(reg: Registry, id: string)
    requires id != "" && HasId(reg, id)
    ensures Update(reg, IdOnly(id), true).registry == reg
  {
    var i := FindIndex(reg, id);
    MergeIdOnlyIsIdentity(reg[i]);
  }
}
