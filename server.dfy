/** The item store service: the record sequence held by the server and the
    storage work of its four handlers (get, create, update, delete). HTTP
    plumbing is abstracted away: a handler receives the request id or the
    outcome of reading and decoding the request body, plus whether
    encoding the response record succeeds, and returns a status with the
    record whose JSON it would write. */
module Server {
  import Json
  import opened Records

  /** The HTTP statuses the handlers answer with. */
  datatype Status = OK | Created | NotFound | InternalError {
    function Code(): int {
      match this
      case OK => 200
      case Created => 201
      case NotFound => 404
      case InternalError => 500
    }
  }

  /** A handler's answer: the status and, when a body is written, the
      record it is the indented JSON encoding of. */
  datatype Response = Response(status: Status, body: Option<Record>)

  /** What reading and decoding a request body yielded. */
  datatype Body =
    | ReadError          // the body could not be read
    | Malformed          // the body is not JSON of the record's shape
    | Decoded(req: Record)

  /** The scan shared by update and delete: it walks the whole sequence and
      overwrites `index` on every match, so it ends on the last match; when
      nothing matches `index` keeps its zero value. */
  method FindLast(s: seq<Record>, id: string) returns (index: nat, found: bool)
    ensures found <==> HasId(s, id)
    ensures found ==> IsLastMatch(s, id, index)
    ensures !found ==> index == 0
    ensures LastIndex(s, id) == if found then Some(index) else None
  {
    index, found := 0, false;
    for i := 0 to |s|
      invariant found <==> exists j :: 0 <= j < i && s[j].id == id
      invariant found ==> index < i && s[index].id == id
      invariant found ==> forall j :: index < j < i ==> s[j].id != id
      invariant !found ==> index == 0
    {
      if s[i].id == id {
        index := i;
        found := true;
      }
    }
    if found {
      LastMatchUnique(s, id, index, LastIndex(s, id).value);
    }
  }

  class Store {
    /** The records in insertion order; ids may repeat. */
    var storage: seq<Record>

    /** Start-up: the store holds the one seed record. */
    constructor ()
      ensures storage == [SeedRecord]
      ensures Lookup(storage, "1") == Some(Record("1", Json.String("hello world")))
    {
      storage := [SeedRecord];
    }

    /** The get handler: build the id-to-record map, then look `reqId` up.
        Not found when no record carries `reqId`; otherwise the record at the
        largest matching position. The store is left as it was. */
    method Get(reqId: string, marshalOk: bool) returns (resp: Response)
      ensures !HasId(storage, reqId) ==> resp == Response(NotFound, None)
      ensures HasId(storage, reqId) && marshalOk ==>
        resp == Response(OK, Some(storage[LastIndex(storage, reqId).value]))
      ensures HasId(storage, reqId) && !marshalOk ==> resp == Response(InternalError, None)
    {
      var dsMap: map<string, Record> := map[];
      for i := 0 to |storage|
        invariant dsMap == IndexById(storage[..i])
      {
        var d := storage[i];
        assert storage[..i + 1][..i] == storage[..i];
        dsMap := dsMap[d.id := d];
      }
      assert storage[..|storage|] == storage;
      IndexByIdIsLookup(storage, reqId);
      if reqId !in dsMap {
        return Response(NotFound, None);
      }
      var d := dsMap[reqId];
      if !marshalOk {
        return Response(InternalError, None);
      }
      resp := Response(OK, Some(d));
    }

    /** The create handler: a body that cannot be read or decoded is an
        internal error and changes nothing; otherwise the record is appended
        with no check on its id. Encoding the answer comes after the append,
        so an encoding failure still leaves the record stored. */
    method Create(body: Body, marshalOk: bool) returns (resp: Response)
      modifies this
      ensures !body.Decoded? ==> storage == old(storage) && resp == Response(InternalError, None)
      ensures body.Decoded? ==> storage == old(storage) + [body.req]
      ensures body.Decoded? ==>
        resp == if marshalOk then Response(Created, Some(body.req)) else Response(InternalError, None)
    {
      if !body.Decoded? {
        return Response(InternalError, None);
      }
      var req := body.req;
      storage := storage + [req];
      if !marshalOk {
        return Response(InternalError, None);
      }
      resp := Response(Created, Some(req));
    }

    /** The update handler: after reading and decoding as create does, the
        record at the last position carrying the request's id is replaced by
        the request; not found when no record carries it. The answer echoes
        the request, and an encoding failure comes after the write. */
    method Update(body: Body, marshalOk: bool) returns (resp: Response)
      modifies this
      ensures !body.Decoded? ==> storage == old(storage) && resp == Response(InternalError, None)
      ensures body.Decoded? && !HasId(old(storage), body.req.id) ==>
        storage == old(storage) && resp == Response(NotFound, None)
      ensures body.Decoded? && HasId(old(storage), body.req.id) ==>
        var i := LastIndex(old(storage), body.req.id).value;
        && storage == old(storage)[i := body.req]
        && |storage| == |old(storage)|
        && (forall j :: 0 <= j < |storage| && j != i ==> storage[j] == old(storage)[j])
        && resp == if marshalOk then Response(OK, Some(body.req)) else Response(InternalError, None)
    {
      if !body.Decoded? {
        return Response(InternalError, None);
      }
      var req := body.req;
      var index, found := FindLast(storage, req.id);
      if !found {
        return Response(NotFound, None);
      }
      storage := storage[index := Record(req.id, req.data)];
      if !marshalOk {
        return Response(InternalError, None);
      }
      resp := Response(OK, Some(req));
    }

    /** The delete handler: the record at the last position carrying `reqId`
        is removed and the later ones shift down; other records with the same
        id stay. Not found, and nothing changes, when no record carries it. */
    method Delete(reqId: string) returns (resp: Response)
      modifies this
      ensures !HasId(old(storage), reqId) ==> storage == old(storage) && resp == Response(NotFound, None)
      ensures HasId(old(storage), reqId) ==>
        var i := LastIndex(old(storage), reqId).value;
        && storage == RemoveAt(old(storage), i)
        && resp == Response(OK, None)
    {
      var index, found := FindLast(storage, reqId);
      if !found {
        return Response(NotFound, None);
      }
      storage := storage[..index] + storage[index + 1..];
      resp := Response(OK, None);
    }
  }

  /** Start-up: the seed record is found and an unknown id is not. */
  method WalkthroughSeed()
  {
    var st := new Store();
    var r := st.Get("1", true);
    assert r == Response(OK, Some(SeedRecord));
    r := st.Get("999", true);
    assert r.status == NotFound;
  }

  /** A created record is found by its id; an update of a missing id and
      a malformed body are refused. */
  method WalkthroughCreate()
  {
    var st := new Store();
    var two := Record("2", Json.Number(42.0));
    var r := st.Create(Decoded(two), true);
    assert r == Response(Created, Some(two));
    LookupAfterAppend([SeedRecord], two, "2");
    r := st.Get("2", true);
    assert r == Response(OK, Some(two));

    r := st.Update(Decoded(Record("no-such-id", Json.Number(1.0))), true);
    assert r.status == NotFound;
    r := st.Create(Malformed, true);
    assert r.status == InternalError && r.status.Code() == 500;
  }

  /** Updating one record changes what its id finds and leaves the
      neighbouring record alone. */
  method WalkthroughUpdate(v: Json.Value)
  {
    var st := new Store();
    var three, four := Record("3", v), Record("4", v);
    ghost var s1 := st.storage;
    var r := st.Create(Decoded(three), true);
    r := st.Create(Decoded(four), true);
    ghost var s3 := st.storage;
    assert s3 == (s1 + [three]) + [four];
    LookupAfterAppend(s1, three, "3");
    LookupAfterAppend(s1 + [three], four, "3");
    LookupAfterAppend(s1 + [three], four, "4");
    var newThree := Record("3", Json.String("x"));
    r := st.Update(Decoded(newThree), true);
    assert r == Response(OK, Some(newThree));
    LookupAfterUpdate(s3, |s1|, newThree, "3");
    LookupAfterUpdate(s3, |s1|, newThree, "4");
    r := st.Get("3", true);
    assert r == Response(OK, Some(newThree));
    r := st.Get("4", true);
    assert r == Response(OK, Some(four));
  }

  /** Two records share an id: get finds the later one, delete removes it
      and uncovers the earlier one, and deleting once more finds nothing. */
  method WalkthroughDuplicates(v: Json.Value)
  {
    var st := new Store();
    var first := Record("dup", v);
    var second := Record("dup", Json.Null);
    var r := st.Create(Decoded(first), true);
    r := st.Create(Decoded(second), true);
    ghost var before := st.storage;
    LookupAfterAppend(before[..|before| - 1], second, "dup");
    r := st.Get("dup", true);
    assert r == Response(OK, Some(second));
    r := st.Delete("dup");
    assert r.status == OK;
    LookupAfterDelete(before, |before| - 1, "dup", "dup");
    LookupAfterAppend(before[..|before| - 2], first, "dup");
    r := st.Get("dup", true);
    assert r == Response(OK, Some(first));
    r := st.Delete("dup");
    assert r.status == OK;
    r := st.Delete("dup");
    assert r.status == NotFound;
  }
}
