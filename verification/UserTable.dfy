/** GetUsersInfos.c: the caches of user and group names. */
module UserTable {
  import opened Wrappers
  import opened Bytes

  const TB_ALLOC_SIZE: nat := 42

  /** What the system's user (or group) database answers. */
  datatype Database = Database(byName: map<text, u32>, byId: map<u32, text>)

  /** Names and ids determine each other. */
  ghost predicate OneToOne(db: Database) {
    && (forall n :: n in db.byName ==> db.byName[n] in db.byId && db.byId[db.byName[n]] == n)
    && (forall u :: u in db.byId ==> db.byId[u] in db.byName && db.byName[db.byId[u]] == u)
  }

  datatype Info = Info(id: u32, name: text)

  function Look<K, V>(m: map<K, V>, k: K): Option<V> {
    if k in m then Some(m[k]) else None
  }

  // ----- the cache as a list -----

  function FindId(t: seq<Info>, id: u32): Option<Info> {
    if t == [] then None else if t[0].id == id then Some(t[0]) else FindId(t[1..], id)
  }

  function FindName(t: seq<Info>, name: text): Option<Info> {
    if t == [] then None else if t[0].name == name then Some(t[0]) else FindName(t[1..], name)
  }

  function AnswerId(t: seq<Info>, db: Database, id: u32): Option<Info> {
    match FindId(t, id)
    case Some(e) => Some(e)
    case None => if id in db.byId then Some(Info(id, db.byId[id])) else None
  }

  function AnswerName(t: seq<Info>, db: Database, name: text): Option<Info> {
    match FindName(t, name)
    case Some(e) => Some(e)
    case None => if name in db.byName then Some(Info(db.byName[name], name)) else None
  }

  /** A miss that the database answers is remembered. */
  function Remember(t: seq<Info>, hit: Option<Info>, answer: Option<Info>): seq<Info> {
    if hit.None? && answer.Some? then t + [answer.value] else t
  }

  datatype Query = ById(id: u32) | ByName(name: text)

  function Ask(t: seq<Info>, db: Database, q: Query): seq<Info> {
    match q
    case ById(id) => Remember(t, FindId(t, id), AnswerId(t, db, id))
    case ByName(name) => Remember(t, FindName(t, name), AnswerName(t, db, name))
  }

  function AskAll(t: seq<Info>, db: Database, qs: seq<Query>): seq<Info>
    decreases |qs|
  {
    if qs == [] then t else AskAll(Ask(t, db, qs[0]), db, qs[1..])
  }

  /** Every entry is what the database says, both ways. */
  ghost predicate Faithful(t: seq<Info>, db: Database) {
    forall i :: 0 <= i < |t| ==> Look(db.byId, t[i].id) == Some(t[i].name) && Look(db.byName, t[i].name) == Some(t[i].id)
  }

  lemma {:induction false} FindIdIsEntry(t: seq<Info>, id: u32)
    ensures FindId(t, id).Some? ==> FindId(t, id).value in t && FindId(t, id).value.id == id
  {
    if t != [] && t[0].id != id {
      FindIdIsEntry(t[1..], id);
    }
  }

  lemma {:induction false} FindNameIsEntry(t: seq<Info>, name: text)
    ensures FindName(t, name).Some? ==> FindName(t, name).value in t && FindName(t, name).value.name == name
  {
    if t != [] && t[0].name != name {
      FindNameIsEntry(t[1..], name);
    }
  }

  /** A faithful cache answers as the database does. */
  lemma FaithfulAnswers(t: seq<Info>, db: Database, id: u32, name: text)
    requires Faithful(t, db)
    ensures AnswerId(t, db, id) == if id in db.byId then Some(Info(id, db.byId[id])) else None
    ensures AnswerName(t, db, name) == if name in db.byName then Some(Info(db.byName[name], name)) else None
  {
    FindIdIsEntry(t, id);
    FindNameIsEntry(t, name);
  }

  lemma {:induction false} StaysFaithful(t: seq<Info>, db: Database, qs: seq<Query>)
    requires OneToOne(db) && Faithful(t, db)
    ensures Faithful(AskAll(t, db, qs), db)
    decreases |qs|
  {
    if qs != [] {
      StaysFaithful(Ask(t, db, qs[0]), db, qs[1..]);
    }
  }

  /** After these queries the cache answers as an empty one, that is, as the database. */
  ghost predicate SameAnswers(db: Database, qs: seq<Query>, id: u32, name: text) {
    && AnswerId(AskAll([], db, qs), db, id) == AnswerId([], db, id)
    && AnswerName(AskAll([], db, qs), db, name) == AnswerName([], db, name)
  }

  ghost predicate CacheInvisible(db: Database) {
    forall qs: seq<Query>, id: u32, name: text :: SameAnswers(db, qs, id, name)
  }

  /**
    Whatever was asked before, the cache answers as the database would: exactly when the
    database's two directions agree.
   */
  lemma CacheInvisibleIff(db: Database)
    ensures CacheInvisible(db) <==> OneToOne(db)
  {
    if OneToOne(db) {
      forall qs: seq<Query>, id: u32, name: text
        ensures SameAnswers(db, qs, id, name)
      {
        StaysFaithful([], db, qs);
        FaithfulAnswers(AskAll([], db, qs), db, id, name);
        FaithfulAnswers([], db, id, name);
      }
    } else if CacheInvisible(db) {
      if n :| n in db.byName && !(db.byName[n] in db.byId && db.byId[db.byName[n]] == n) {
        assert SameAnswers(db, [ByName(n)], db.byName[n], n);
        OneEntry(db, ByName(n), Info(db.byName[n], n));
        assert false;
      } else {
        var u :| u in db.byId && !(db.byId[u] in db.byName && db.byName[db.byId[u]] == u);
        assert SameAnswers(db, [ById(u)], u, db.byId[u]);
        OneEntry(db, ById(u), Info(u, db.byId[u]));
        assert false;
      }
    }
  }

  lemma OneEntry(db: Database, q: Query, e: Info)
    requires match q case ByName(n) => n in db.byName && e == Info(db.byName[n], n)
                     case ById(u) => u in db.byId && e == Info(u, db.byId[u])
    ensures AskAll([], db, [q]) == [e]
    ensures FindId([e], e.id) == Some(e) && FindName([e], e.name) == Some(e)
  {
    assert AskAll([], db, [q]) == AskAll(Ask([], db, q), db, []);
    assert [q][1..] == [];
  }

  // ----- the cache as a growing array -----

  class InfoTable {
    const db: Database
    var tb: array<Info>
    var tbSize: nat
    ghost var entries: seq<Info>

    ghost predicate Valid()
      reads this, tb
    {
      && tbSize <= tb.Length
      && (tbSize % TB_ALLOC_SIZE != 0 ==> tbSize < tb.Length)
      && (tbSize % TB_ALLOC_SIZE != 0 ==> tb.Length % TB_ALLOC_SIZE == 0)
      && entries == tb[..tbSize]
    }

    constructor (db: Database)
      ensures Valid() && fresh(tb) && this.db == db && entries == []
    {
      this.db := db;
      tb := new Info[0];
      tbSize, entries := 0, [];
    }

    /** add_element_in_table: the array grows by 42 places whenever it is full. */
    method AddElement(e: Info)
      requires Valid()
      modifies this, tb
      ensures Valid() && entries == old(entries) + [e] && (tb == old(tb) || fresh(tb))
    {
      if tbSize % TB_ALLOC_SIZE == 0 {
        Grow(e);
      }
      tb[tbSize] := e;
      tbSize := tbSize + 1;
      entries := entries + [e];
    }

    method Grow(filler: Info)
      requires Valid() && tbSize % TB_ALLOC_SIZE == 0
      modifies this`tb
      ensures fresh(tb) && tb.Length == tbSize + TB_ALLOC_SIZE && tb[..tbSize] == entries
    {
      var t := new Info[tbSize + TB_ALLOC_SIZE](_ => filler);
      for i := 0 to tbSize
        invariant forall k :: 0 <= k < i ==> t[k] == tb[k]
        modifies t
      {
        t[i] := tb[i];
      }
      assert t[..tbSize] == tb[..tbSize];
      tb := t;
    }

    /** mygetpwuid and mygetgrgid. */
    method GetById(id: u32) returns (r: Option<Info>)
      requires Valid()
      modifies this, tb
      ensures Valid() && (tb == old(tb) || fresh(tb))
      ensures r == AnswerId(old(entries), db, id) && entries == Ask(old(entries), db, ById(id))
    {
      for i := 0 to tbSize
        invariant FindId(entries, id) == FindId(entries[i..], id)
        modifies {}
      {
        assert entries[i] == tb[i] && entries[i..][1..] == entries[i + 1..];
        if tb[i].id == id {
          return Some(tb[i]);
        }
      }
      if id in db.byId {
        r := Some(Info(id, db.byId[id]));
        AddElement(r.value);
      } else {
        r := None;
      }
    }

    /** mygetpwnam and mygetgrnam. */
    method GetByName(name: text) returns (r: Option<Info>)
      requires Valid()
      modifies this, tb
      ensures Valid() && (tb == old(tb) || fresh(tb))
      ensures r == AnswerName(old(entries), db, name) && entries == Ask(old(entries), db, ByName(name))
    {
      for i := 0 to tbSize
        invariant FindName(entries, name) == FindName(entries[i..], name)
        modifies {}
      {
        assert entries[i] == tb[i] && entries[i..][1..] == entries[i + 1..];
        if tb[i].name == name {
          return Some(tb[i]);
        }
      }
      if name in db.byName {
        r := Some(Info(db.byName[name], name));
        AddElement(r.value);
      } else {
        r := None;
      }
    }
  }
}
