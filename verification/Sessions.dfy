/** Sessions kept in a cache (addons/sessions/sessions.go, addons/sessions/middleware.go). */
module Sessions {
  import opened Strings
  import opened MemoryCaches
  import opened PageCaches

  datatype Visit<T> = Visit(id: string, data: T, isNew: bool)

  /** The session a cookie value opens: the data stored under it, or a new session under a
      random identifier, also when what is stored is not session data. */
  function Opened<T>(items: Items<Stored<T>>, cookie: string, random: string, zero: T, now: int): Visit<T> {
    var value := Seen(items, cookie, now);
    if value.Some? && value.value.Data? then Visit(cookie, value.value.data, false)
    else Visit(random, zero, true)
  }

  class Session<T> {
    const id: string
    const isNew: bool
    var data: T

    constructor (id: string, data: T, isNew: bool)
      ensures this.id == id && this.data == data && this.isNew == isNew
    {
      this.id := id;
      this.data := data;
      this.isNew := isNew;
    }
  }

  class Manager<T> {
    const store: MemoryCache<Stored<T>>
    const ttl: int
    const zero: T
    /** The Set-Cookie line for an identifier and the time it expires. */
    const cookieLine: (string, int) -> string

    constructor (store: MemoryCache<Stored<T>>, ttl: int, zero: T, cookieLine: (string, int) -> string)
      ensures this.store == store && this.ttl == ttl && this.zero == zero && this.cookieLine == cookieLine
    {
      this.store := store;
      this.ttl := ttl;
      this.zero := zero;
      this.cookieLine := cookieLine;
    }

    method NewSession(random: string) returns (session: Session<T>)
      ensures fresh(session)
      ensures Visit(session.id, session.data, session.isNew) == Visit(random, zero, true)
    {
      session := new Session(random, zero, true);
    }

    method Get(id: string, random: string, now: int) returns (session: Session<T>)
      modifies store
      ensures fresh(session)
      ensures Visit(session.id, session.data, session.isNew) == Opened(old(store.items), id, random, zero, now)
      ensures store.items == Purged(old(store.items), id, now)
    {
      var value := store.Get(id, now);
      if value.None? || !value.value.Data? {
        session := NewSession(random);
      } else {
        session := new Session(id, value.value.data, false);
      }
    }

    method Save(session: Session<T>, now: int)
      modifies store
      ensures store.items == old(store.items)[session.id := NewItem(Data(session.data), ttl, now)]
    {
      store.Set(session.id, Data(session.data), ttl, now);
    }

    method Delete(id: string)
      modifies store
      ensures store.items == old(store.items) - {id}
    {
      store.Delete(id);
    }

    /** The middleware around a handler that changes the session's data by `edit`, does
        `actions` to the writer, and may delete its session. The data is saved afterwards
        in any case. A request without the cookie looks up "". */
    method Start(cookie: Option<string>, random: string, writer: Writer, edit: T -> T, actions: seq<Action>,
                 logout: bool, now: int, later: int)
      returns (id: string)
      modifies store, writer
      ensures var asked := if cookie.Some? then cookie.value else "";
              var visit := Opened(old(store.items), asked, random, zero, now);
              && id == visit.id
              && store.items
                 == Purged(old(store.items), asked, now)[id := NewItem(Data(edit(visit.data)), ttl, later)]
      ensures writer.wire
           == DoAll(Do(old(writer.wire), AddHeader("Set-Cookie", cookieLine(id, now + ttl))), actions)
    {
      var sessionID := "";
      if cookie.Some? {
        sessionID := cookie.value;
      }
      var session := Get(sessionID, random, now);
      id := session.id;
      writer.Act(AddHeader("Set-Cookie", cookieLine(id, now + ttl)));
      RunPlain(writer, actions);
      session.data := edit(session.data);
      if logout {
        Delete(id);
      }
      Save(session, later);
    }
  }
}
