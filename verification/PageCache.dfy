/** The page cache middleware (addons/cache/middleware.go). */
module PageCaches {
  import opened Strings
  import opened MemoryCaches

  type Header = map<string, seq<string>>

  /** What a handler does to its response writer. */
  datatype Action =
    | AddHeader(name: string, value: string)
    | SetHeader(name: string, values: seq<string>)
    | WriteHeader(code: int)
    | Write(chunk: string)

  /** A response writer as net/http has it: the first status or write begins the reply and
      fixes its status and header; what comes later changes the body alone. */
  datatype Wire = Wire(header: Header, begun: bool, status: int, sent: Header, body: string)

  function NewWire(header: Header): Wire {
    Wire(header, false, 200, map[], "")
  }

  function ValuesOf(header: Header, name: string): seq<string> {
    if name in header then header[name] else []
  }

  function Do(wire: Wire, action: Action): Wire {
    match action
    case AddHeader(name, value) => wire.(header := wire.header[name := ValuesOf(wire.header, name) + [value]])
    case SetHeader(name, values) => wire.(header := wire.header[name := values])
    case WriteHeader(code) =>
      if wire.begun then wire else wire.(begun := true, status := code, sent := wire.header)
    case Write(chunk) =>
      var begun := if wire.begun then wire else wire.(begun := true, sent := wire.header);
      begun.(body := begun.body + chunk)
  }

  function DoAll(wire: Wire, actions: seq<Action>): Wire {
    if actions == [] then wire else Do(DoAll(wire, actions[..|actions| - 1]), actions[|actions| - 1])
  }

  datatype Reply = Reply(status: int, header: Header, body: string)

  /** The header lines a header puts on the wire; a name without values puts none. */
  function Lines(header: Header): Header {
    map name | name in header && header[name] != [] :: header[name]
  }

  function ReplyOf(wire: Wire): Reply {
    Reply(wire.status, Lines(if wire.begun then wire.sent else wire.header), wire.body)
  }

  class Writer {
    var wire: Wire

    constructor (header: Header)
      ensures wire == NewWire(header)
    {
      wire := NewWire(header);
    }

    method Act(action: Action)
      modifies this
      ensures wire == Do(old(wire), action)
    {
      wire := Do(wire, action);
    }
  }

  /** A handler that runs on a writer of its own. */
  method RunPlain(writer: Writer, actions: seq<Action>)
    modifies writer
    ensures writer.wire == DoAll(old(writer.wire), actions)
  {
    for i := 0 to |actions|
      invariant writer.wire == DoAll(old(writer.wire), actions[..i])
    {
      writer.Act(actions[i]);
      assert actions[..i + 1][..i] == actions[..i];
    }
    assert actions[..|actions|] == actions;
  }

  // ----- Recording -----

  /** The last status written, 200 if there is none. */
  function LastStatus(actions: seq<Action>): int {
    if actions == [] then 200
    else
      var last := actions[|actions| - 1];
      if last.WriteHeader? then last.code else LastStatus(actions[..|actions| - 1])
  }

  function Written(actions: seq<Action>): string {
    if actions == [] then ""
    else
      var last := actions[|actions| - 1];
      Written(actions[..|actions| - 1]) + (if last.Write? then last.chunk else "")
  }

  class ResponseRecorder {
    const inner: Writer
    var statusCode: int
    var body: string

    constructor (inner: Writer)
      ensures this.inner == inner && statusCode == 200 && body == ""
    {
      this.inner := inner;
      statusCode := 200;
      body := "";
    }

    method Act(action: Action)
      modifies this, inner
      ensures inner.wire == Do(old(inner.wire), action)
      ensures statusCode == if action.WriteHeader? then action.code else old(statusCode)
      ensures body == old(body) + (if action.Write? then action.chunk else "")
    {
      if action.WriteHeader? {
        statusCode := action.code;
      } else if action.Write? {
        body := body + action.chunk;
      }
      inner.Act(action);
    }
  }

  /** A handler that runs on a recorder. */
  method RunRecorded(recorder: ResponseRecorder, actions: seq<Action>)
    requires recorder.statusCode == 200 && recorder.body == ""
    modifies recorder, recorder.inner
    ensures recorder.inner.wire == DoAll(old(recorder.inner.wire), actions)
    ensures recorder.statusCode == LastStatus(actions) && recorder.body == Written(actions)
  {
    for i := 0 to |actions|
      invariant recorder.inner.wire == DoAll(old(recorder.inner.wire), actions[..i])
      invariant recorder.statusCode == LastStatus(actions[..i]) && recorder.body == Written(actions[..i])
    {
      recorder.Act(actions[i]);
      assert actions[..i + 1][..i] == actions[..i];
    }
    assert actions[..|actions|] == actions;
  }

  // ----- The middleware -----

  datatype CachedResponse = CachedResponse(status: int, header: Header, body: string)

  /** The values of the store: an encoded page, or what another user of the store put there. */
  datatype Stored<T> = Bytes(page: CachedResponse) | Data(data: T)

  const PREFIX: string := "route_cache:"

  function DefaultKey(url: string): string {
    PREFIX + url
  }

  /** What the recorder holds at the end of a handler. */
  function Captured(wire: Wire, actions: seq<Action>): CachedResponse {
    CachedResponse(LastStatus(actions), DoAll(wire, actions).header, Written(actions))
  }

  /** The page a lookup finds. */
  function Found<T>(items: Items<Stored<T>>, key: string, now: int): Option<CachedResponse> {
    var value := Seen(items, key, now);
    if value.Some? && value.value.Bytes? then Some(value.value.page) else None
  }

  predicate Keeps(page: CachedResponse, failed: bool) {
    !failed && page.status < 400
  }

  /** A header with the values of another added, for the names in `names`. */
  function Added(header: Header, more: Header, names: set<string>): Header {
    map name | name in header.Keys + names && (name in header || ValuesOf(more, name) != []) ::
      if name in names && ValuesOf(more, name) != [] then ValuesOf(header, name) + ValuesOf(more, name)
      else header[name]
  }

  function Replayed(wire: Wire, page: CachedResponse): Wire {
    var header := Added(wire.header, page.header, page.header.Keys)["X-Cache" := ["HIT"]];
    Do(Do(wire.(header := header), WriteHeader(page.status)), Write(page.body))
  }

  lemma AddedNone(header: Header, more: Header)
    ensures Added(header, more, {}) == header
  {
  }

  lemma AddedOne(header: Header, more: Header, names: set<string>, name: string)
    requires name !in names
    ensures Added(header, more, names + {name})
         == if ValuesOf(more, name) == [] then Added(header, more, names)
            else
              var added := Added(header, more, names);
              added[name := ValuesOf(added, name) + ValuesOf(more, name)]
  {
  }

  method AddValues(writer: Writer, name: string, values: seq<string>)
    modifies writer
    ensures writer.wire == old(writer.wire).(header :=
              var header := old(writer.wire.header);
              if values == [] then header else header[name := ValuesOf(header, name) + values])
  {
    ghost var header := writer.wire.header;
    for i := 0 to |values|
      invariant writer.wire == old(writer.wire).(header := writer.wire.header)
      invariant writer.wire.header == if i == 0 then header else header[name := ValuesOf(header, name) + values[..i]]
    {
      ghost var before := writer.wire.header;
      writer.Act(AddHeader(name, values[i]));
      assert ValuesOf(header, name) + values[..0] == ValuesOf(header, name);
      assert ValuesOf(before, name) == ValuesOf(header, name) + values[..i];
      assert ValuesOf(before, name) + [values[i]] == ValuesOf(header, name) + values[..i + 1];
      assert writer.wire.header == header[name := ValuesOf(before, name) + [values[i]]];
    }
    assert values[..|values|] == values;
  }

  method Replay(writer: Writer, page: CachedResponse)
    modifies writer
    ensures writer.wire == Replayed(old(writer.wire), page)
  {
    var names := page.header.Keys;
    ghost var header, added: set<string> := writer.wire.header, {};
    AddedNone(header, page.header);
    while names != {}
      invariant names !! added && names + added == page.header.Keys
      invariant writer.wire == old(writer.wire).(header := Added(header, page.header, added))
      decreases names
    {
      var name :| name in names;
      AddValues(writer, name, page.header[name]);
      AddedOne(header, page.header, added, name);
      names, added := names - {name}, added + {name};
    }
    assert added == page.header.Keys;
    writer.Act(SetHeader("X-Cache", ["HIT"]));
    writer.Act(WriteHeader(page.status));
    writer.Act(Write(page.body));
  }

  /** The store after a GET. */
  function Served<T>(items: Items<Stored<T>>, ttl: int, wire: Wire, key: string,
                     actions: seq<Action>, failed: bool, now: int, later: int): Items<Stored<T>> {
    var rest := Purged(items, key, now);
    var page := Captured(wire, actions);
    if Found(items, key, now).None? && Keeps(page, failed) then rest[key := NewItem(Bytes(page), ttl, later)] else rest
  }

  /** One request through the middleware: the store is read at `now` and written at `later`,
      and in between the handler does `actions` and fails or not. */
  method Serve<T>(store: MemoryCache<Stored<T>>, ttl: int, writer: Writer, verb: string, key: string,
                  actions: seq<Action>, failed: bool, now: int, later: int)
    returns (hit: bool)
    modifies store, writer
    ensures hit <==> verb == "GET" && Found(old(store.items), key, now).Some?
    ensures writer.wire
         == if hit then Replayed(old(writer.wire), Found(old(store.items), key, now).value)
            else DoAll(old(writer.wire), actions)
    ensures store.items
         == if verb != "GET" then old(store.items)
            else Served(old(store.items), ttl, old(writer.wire), key, actions, failed, now, later)
  {
    if verb != "GET" {
      RunPlain(writer, actions);
      return false;
    }
    var value := store.Get(key, now);
    if value.Some? && value.value.Bytes? {
      Replay(writer, value.value.page);
      return true;
    }
    var recorder := new ResponseRecorder(writer);
    RunRecorded(recorder, actions);
    if !failed && recorder.statusCode < 400 {
      var page := CachedResponse(recorder.statusCode, writer.wire.header, recorder.body);
      store.Set(key, Bytes(page), ttl, later);
    }
    return false;
  }

  // ----- Fidelity of a replay -----

  predicate Begins(action: Action) {
    action.WriteHeader? || action.Write?
  }

  /** The position of the action that begins the reply, the end if none does. */
  function ReplyStart(actions: seq<Action>): (i: nat)
    ensures i <= |actions|
    ensures forall j :: 0 <= j < i ==> !Begins(actions[j])
    ensures i < |actions| ==> Begins(actions[i])
  {
    if actions == [] then 0
    else
      var n := |actions| - 1;
      var i := ReplyStart(actions[..n]);
      if i == n && !Begins(actions[n]) then |actions| else i
  }

  /** The status of the action that begins the reply, 200 if that is a write or there is none. */
  function SentStatus(actions: seq<Action>): int {
    var i := ReplyStart(actions);
    if i < |actions| && actions[i].WriteHeader? then actions[i].code else 200
  }

  /** What the actions make of a header, sent or not. */
  function HeaderAfter(header: Header, actions: seq<Action>): Header {
    if actions == [] then header
    else
      var before := HeaderAfter(header, actions[..|actions| - 1]);
      match actions[|actions| - 1]
      case AddHeader(name, value) => before[name := ValuesOf(before, name) + [value]]
      case SetHeader(name, values) => before[name := values]
      case _ => before
  }

  /** The header as it is when the reply begins. */
  function SentHeader(header: Header, actions: seq<Action>): Header {
    HeaderAfter(header, actions[..ReplyStart(actions)])
  }

  /** The first action that begins the reply settles what is sent. */
  lemma SentAfterMore(header: Header, actions: seq<Action>)
    requires actions != []
    ensures var n := |actions| - 1;
            var earlier := actions[..n];
            if ReplyStart(earlier) < n then
              && ReplyStart(actions) == ReplyStart(earlier) && SentStatus(actions) == SentStatus(earlier)
              && SentHeader(header, actions) == SentHeader(header, earlier)
            else if Begins(actions[n]) then
              && ReplyStart(actions) == n && SentHeader(header, actions) == HeaderAfter(header, earlier)
              && SentStatus(actions) == if actions[n].WriteHeader? then actions[n].code else 200
            else ReplyStart(actions) == |actions| && SentStatus(actions) == 200
  {
    var n, i := |actions| - 1, ReplyStart(actions);
    if i < n {
      assert actions[..n][..i] == actions[..i] && actions[..n][i] == actions[i];
    }
  }

  lemma {:induction false} WireAfter(header: Header, actions: seq<Action>)
    ensures var wire := DoAll(NewWire(header), actions);
            && wire.header == HeaderAfter(header, actions)
            && wire.body == Written(actions)
            && wire.status == SentStatus(actions)
            && (wire.begun <==> ReplyStart(actions) < |actions|)
            && (wire.begun ==> wire.sent == SentHeader(header, actions))
  {
    if actions != [] {
      WireAfter(header, actions[..|actions| - 1]);
      SentAfterMore(header, actions);
    }
  }

  /** What a handler sends: its whole body, and status and header as they were when the
      reply began. */
  lemma ReplyOfHandler(header: Header, actions: seq<Action>)
    ensures ReplyOf(DoAll(NewWire(header), actions))
         == Reply(SentStatus(actions), Lines(SentHeader(header, actions)), Written(actions))
    ensures Captured(NewWire(header), actions)
         == CachedResponse(LastStatus(actions), HeaderAfter(header, actions), Written(actions))
  {
    WireAfter(header, actions);
    if ReplyStart(actions) == |actions| {
      assert actions[..|actions|] == actions;
    }
  }

  /** The header lines of a hit that repeats `header` on a writer that has `outer` already. */
  function HitHeader(outer: Header, header: Header): Header {
    Lines(Added(outer, header, header.Keys))["X-Cache" := ["HIT"]]
  }

  lemma HitHeaderValues(outer: Header, header: Header, name: string)
    ensures ValuesOf(HitHeader(outer, header), name)
         == if name == "X-Cache" then ["HIT"] else ValuesOf(outer, name) + ValuesOf(header, name)
    ensures name in HitHeader(outer, header) <==> ValuesOf(HitHeader(outer, header), name) != []
  {
    if ValuesOf(header, name) == [] {
      assert ValuesOf(outer, name) + [] == ValuesOf(outer, name);
    }
  }

  /** The same lines, X-Cache apart. */
  ghost predicate SameLines(a: Header, b: Header) {
    forall name {:trigger ValuesOf(a, name)} {:trigger ValuesOf(b, name)} ::
      name != "X-Cache" ==> ValuesOf(a, name) == ValuesOf(b, name)
  }

  lemma SameHitHeader(outer: Header, a: Header, b: Header)
    ensures HitHeader(outer, a) == HitHeader(outer, b) <==> SameLines(a, b)
  {
    if HitHeader(outer, a) == HitHeader(outer, b) {
      forall name | name != "X-Cache" ensures ValuesOf(a, name) == ValuesOf(b, name) {
        HitHeaderValues(outer, a, name);
        HitHeaderValues(outer, b, name);
        SameTail(ValuesOf(outer, name), ValuesOf(a, name), ValuesOf(b, name));
      }
    }
    if SameLines(a, b) {
      forall name
        ensures name in HitHeader(outer, a) <==> name in HitHeader(outer, b)
        ensures ValuesOf(HitHeader(outer, a), name) == ValuesOf(HitHeader(outer, b), name)
      {
        HitHeaderValues(outer, a, name);
        HitHeaderValues(outer, b, name);
      }
      SameMap(HitHeader(outer, a), HitHeader(outer, b));
    }
  }

  lemma SameTail(outer: seq<string>, a: seq<string>, b: seq<string>)
    requires outer + a == outer + b
    ensures a == b
  {
    assert a == (outer + a)[|outer|..] && b == (outer + b)[|outer|..];
  }

  lemma SameMap(a: Header, b: Header)
    requires forall name :: name in a <==> name in b
    requires forall name :: ValuesOf(a, name) == ValuesOf(b, name)
    ensures a == b
  {
    forall name | name in a ensures a[name] == b[name] {
      assert ValuesOf(a, name) == ValuesOf(b, name);
    }
  }

  lemma LinesHaveValues(header: Header)
    ensures forall name :: ValuesOf(Lines(header), name) == ValuesOf(header, name)
  {
  }

  lemma ReplyOfReplayed(outer: Header, page: CachedResponse)
    ensures ReplyOf(Replayed(NewWire(outer), page)) == Reply(page.status, HitHeader(outer, page.header), page.body)
  {
    var added := Added(outer, page.header, page.header.Keys);
    assert Lines(added["X-Cache" := ["HIT"]]) == Lines(added)["X-Cache" := ["HIT"]];
    assert "" + page.body == page.body;
  }

  /** The reply of a handler, repeated as a hit. */
  function Repeated(original: Reply, outer: Header): Reply {
    Reply(original.status, HitHeader(outer, original.header), original.body)
  }

  /** The last status written is the one that began the reply, and the header lines at the
      end are those when it began, X-Cache apart. */
  ghost predicate Settled(header: Header, actions: seq<Action>) {
    && LastStatus(actions) == SentStatus(actions)
    && SameLines(HeaderAfter(header, actions), SentHeader(header, actions))
  }

  /** A hit repeats the reply its handler gave, with the same status and body and the same
      header lines after those the writer has, if and only if the handler's actions are
      settled. The body is repeated in any case. */
  lemma ReplayIsOriginalIffSettled(header: Header, actions: seq<Action>, outer: Header)
    ensures var original := ReplyOf(DoAll(NewWire(header), actions));
            var replay := ReplyOf(Replayed(NewWire(outer), Captured(NewWire(header), actions)));
            && replay.body == original.body
            && (replay == Repeated(original, outer) <==> Settled(header, actions))
  {
    ReplyOfHandler(header, actions);
    ReplyOfReplayed(outer, Captured(NewWire(header), actions));
    LinesHaveValues(SentHeader(header, actions));
    SameHitHeader(outer, HeaderAfter(header, actions), Lines(SentHeader(header, actions)));
    assert SameLines(HeaderAfter(header, actions), Lines(SentHeader(header, actions)))
      <==> SameLines(HeaderAfter(header, actions), SentHeader(header, actions));
  }

  /** On a writer without header lines of its own, that is to differ in X-Cache alone. */
  lemma ReplayOnBareWriter(header: Header, actions: seq<Action>)
    ensures var original := ReplyOf(DoAll(NewWire(header), actions));
            var replay := ReplyOf(Replayed(NewWire(map[]), Captured(NewWire(header), actions)));
            replay == original.(header := original.header["X-Cache" := ["HIT"]]) <==> Settled(header, actions)
  {
    var original := ReplyOf(DoAll(NewWire(header), actions));
    ReplayIsOriginalIffSettled(header, actions, map[]);
    ReplyOfHandler(header, actions);
    var marked := original.header["X-Cache" := ["HIT"]];
    LinesHaveValues(SentHeader(header, actions));
    forall name
      ensures name in HitHeader(map[], original.header) <==> name in marked
      ensures ValuesOf(HitHeader(map[], original.header), name) == ValuesOf(marked, name)
    {
      HitHeaderValues(map[], original.header, name);
      assert [] + ValuesOf(original.header, name) == ValuesOf(original.header, name);
    }
    SameMap(HitHeader(map[], original.header), marked);
  }

  /** Header first, then at most one status, then the body. */
  ghost predicate WellBehaved(actions: seq<Action>) {
    forall i, j :: 0 <= i < j < |actions| && Begins(actions[i]) ==> actions[j].Write?
  }

  /** Handlers of the common form are settled. */
  lemma {:induction false} WellBehavedIsSettled(header: Header, actions: seq<Action>)
    requires WellBehaved(actions)
    ensures Settled(header, actions)
  {
    if actions != [] {
      var n := |actions| - 1;
      var i := ReplyStart(actions);
      WellBehavedIsSettled(header, actions[..n]);
      if i < n {
        assert Begins(actions[i]) && actions[..n][..i] == actions[..i];
      } else if i == |actions| {
        assert actions[..i] == actions;
      }
    }
  }

  /** A status written after the body has begun is not sent, but it is what a hit sends. */
  lemma LateStatusExample()
    ensures var actions := [Write("a"), WriteHeader(201)];
            && ReplyOf(DoAll(NewWire(map[]), actions)).status == 200
            && ReplyOf(Replayed(NewWire(map[]), Captured(NewWire(map[]), actions))).status == 201
  {
    var actions := [Write("a"), WriteHeader(201)];
    assert actions[..1] == [Write("a")] && actions[..1][..0] == [];
  }

  /** And so is a header line added then. */
  lemma LateHeaderExample()
    ensures var actions := [Write("a"), AddHeader("H", "v")];
            && "H" !in ReplyOf(DoAll(NewWire(map[]), actions)).header
            && ValuesOf(ReplyOf(Replayed(NewWire(map[]), Captured(NewWire(map[]), actions))).header, "H") == ["v"]
  {
    var actions := [Write("a"), AddHeader("H", "v")];
    assert actions[..1] == [Write("a")] && actions[..1][..0] == [];
    ReplyOfReplayed(map[], Captured(NewWire(map[]), actions));
    HitHeaderValues(map[], Captured(NewWire(map[]), actions).header, "H");
  }
}
