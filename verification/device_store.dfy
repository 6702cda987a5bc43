/**
 The registry document on disk and one request served end to end: load the
 document (falling back to an empty registry), run the handler, and write the
 whole document back when the handler saves successfully.
 */
module DeviceStore {
  import opened Wrappers
  import opened DeviceRegistry
  import opened DeviceRoutes

  /** What the registry file holds: nothing, something that cannot be read or
      parsed, or a well-formed document. */
  datatype DevicesFile = Absent | Unreadable | Written(devices: Registry)

  /** A request to the devices API. `DeleteDevice` carries the `id` query
      parameter, absent when the URL has none. */
  datatype Request =
    | GetDevices
    | PostDevice(body: Payload)
    | PutDevice(body: Payload)
    | DeleteDevice(query: Option<string>)

  /** Loading never fails: an absent or unreadable file is the empty registry. */
  function Load(f: DevicesFile): (reg: Registry)
    ensures f.Written? ==> reg == f.devices
    ensures !f.Written? ==> reg == []
  {
    match f
    case Written(devices) => devices
    case _ => []
  }

  /** Saving overwrites the whole document when the write succeeds and leaves
      the file as it was when it fails. */
  function Save(f: DevicesFile, reg: Registry, ok: bool): (f': DevicesFile)
    ensures ok ==> Load(f') == reg
    ensures !ok ==> f' == f
  {
    if ok then Written(reg) else f
  }

  /** The handler a request is routed to, applied to the loaded registry. */
  function Handle(reg: Registry, req: Request, saveOk: bool): Outcome {
    match req
    case GetDevices => List(reg)
    case PostDevice(p) => Create(reg, p, saveOk)
    case PutDevice(p) => Update(reg, p, saveOk)
    case DeleteDevice(id) => Delete(reg, id, saveOk)
  }

  /** One request end to end: the reply and the file afterwards. The file is
      written only by a mutating request that the handler accepted and whose
      save succeeded. */
  function Serve(f: DevicesFile, req: Request, saveOk: bool): (r: (Reply, DevicesFile))
    ensures r.0 == Handle(Load(f), req, saveOk).reply
    ensures Load(r.1) == Handle(Load(f), req, saveOk).registry
    ensures StatusCode(r.0) != 200 ==> r.1 == f
    ensures req.GetDevices? ==> r.1 == f
    ensures !req.GetDevices? && StatusCode(r.0) == 200 ==> r.1.Written?
  {
    var o := Handle(Load(f), req, saveOk);
    if !req.GetDevices? && StatusCode(o.reply) == 200 then (o.reply, Save(f, o.registry, true))
    else (o.reply, f)
  }

  /** Saving what was loaded, twice over, gives the same document as once.
      This is the property at the level of registry values; that the bytes
      written are identical also needs `JSON.stringify` to be deterministic,
      which is outside this model. */
  lemma SaveLoadIdempotent(f: DevicesFile)
    ensures var once := Save(f, Load(f), true);
            Save(once, Load(once), true) == once
  {
  }

  /** When the save fails, no mutating request answers 200 (a request
      refused by validation or lookup answers 400 or 404; it answers 500
      exactly when a working save would have answered 200), and the file
      stays exactly as it was. */
  lemma FailedSaveKeepsFile(f: DevicesFile, req: Request)
    ensures var r := Serve(f, req, false);
            && r.1 == f
            && (!req.GetDevices? ==> StatusCode(r.0) != 200)
            && (!req.GetDevices? ==>
                  (StatusCode(r.0) == 500 <==> StatusCode(Serve(f, req, true).0) == 200))
  {
  }

  /** An unreadable file is served as an empty registry, and a successful
      create then replaces it with a document holding only the new device:
      whatever the unreadable file held is lost. */
  lemma CreateOverUnreadableFile(p: Payload)
    requires HasRequiredFields(p)
    ensures Serve(Unreadable, GetDevices, true).0 == Listed([])
    ensures Serve(Unreadable, PostDevice(p), true) == (Created(p), Written([NewDevice(p)]))
  {
    assert !HasId([], p.id.value);
  }
}
