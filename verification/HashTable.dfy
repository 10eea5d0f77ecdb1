/** Core/hash.c: the configuration store, a chained hash table with a one-entry lookup cache. */
module HashTable {
  import opened Wrappers
  import opened Bytes

  const MSS_HASH_SIZE: nat := 256

  /** A C string whose first two characters are not negative as chars; the hash reads these two. */
  predicate IsKey(key: bytes) {
    && |key| > 0 && (forall i :: 0 <= i < |key| ==> key[i] != 0)
    && key[0] < 0x80 && (|key| > 1 ==> key[1] < 0x80)
  }

  /** MAKE_HASH; behind a key of one character is its terminator. */
  function MakeHash(key: bytes): (h: nat)
    requires IsKey(key)
    ensures h < MSS_HASH_SIZE
  {
    (((key[0] as bv8) >> 5) | ((if |key| > 1 then key[1] else 0) as bv8)) as int
  }

  // ----- what the store means -----

  datatype Value = Value(str: Option<bytes>, number: int)

  /** Nothing before create_hash and after delete_hash, else a map. */
  type Abstract = Option<map<bytes, Value>>

  function Lookup(m: Abstract, key: bytes): Value {
    if m.Some? && key in m.value then m.value[key] else Value(None, 0)
  }

  function Put(m: Abstract, key: bytes, v: Value): Abstract {
    if m.None? then None else Some(m.value[key := v])
  }

  datatype Op =
    | Create
    | Delete
    | Set(key: bytes, value: Option<bytes>)
    | SetInt(key: bytes, number: int)
    | Exists(key: bytes)
    | Get(key: bytes)
    | GetInt(key: bytes)

  datatype Answer = Nothing | Found(found: bool) | Str(str: Option<bytes>) | Number(number: int)

  predicate Proper(op: Op) {
    match op
    case Create => true
    case Delete => true
    case Set(key, _) => IsKey(key)
    case SetInt(key, _) => IsKey(key)
    case Exists(key) => IsKey(key)
    case Get(key) => IsKey(key)
    case GetInt(key) => IsKey(key)
  }

  function Apply(m: Abstract, op: Op): (Abstract, Answer) {
    match op
    case Create => (Some(map[]), Nothing)
    case Delete => (None, Nothing)
    case Set(key, value) => (if value.None? then m else Put(m, key, Lookup(m, key).(str := value)), Nothing)
    case SetInt(key, n) => (Put(m, key, Lookup(m, key).(number := n)), Nothing)
    case Exists(key) => (m, Found(m.Some? && key in m.value))
    case Get(key) => (m, Str(Lookup(m, key).str))
    case GetInt(key) => (m, Number(Lookup(m, key).number))
  }

  function ApplyAll(m: Abstract, ops: seq<Op>): (r: (Abstract, seq<Answer>))
    ensures |r.1| == |ops|
  {
    if ops == [] then (m, [])
    else
      var (m', as') := ApplyAll(m, ops[..|ops| - 1]);
      var (m'', a) := Apply(m', ops[|ops| - 1]);
      (m'', as' + [a])
  }

  /** The value given to key by the last hash_set since the store was created. */
  function LastSet(ops: seq<Op>, key: bytes): Option<bytes> {
    if ops == [] then None
    else
      var op := ops[|ops| - 1];
      if op.Create? || op.Delete? then None
      else if op.Set? && op.key == key && op.value.Some? then op.value
      else LastSet(ops[..|ops| - 1], key)
  }

  function LastSetInt(ops: seq<Op>, key: bytes): int {
    if ops == [] then 0
    else
      var op := ops[|ops| - 1];
      if op.Create? || op.Delete? then 0
      else if op.SetInt? && op.key == key then op.number
      else LastSetInt(ops[..|ops| - 1], key)
  }

  predicate Opened(ops: seq<Op>) {
    if ops == [] then false
    else if ops[|ops| - 1].Create? then true
    else if ops[|ops| - 1].Delete? then false
    else Opened(ops[..|ops| - 1])
  }

  /** Strings and numbers are stored apart: each lookup finds what was last set of its own kind. */
  lemma {:induction false} LookupFindsLastSet(ops: seq<Op>, key: bytes)
    ensures var m := ApplyAll(None, ops).0;
            && (m.Some? <==> Opened(ops))
            && Lookup(m, key) == if Opened(ops) then Value(LastSet(ops, key), LastSetInt(ops, key)) else Value(None, 0)
  {
    if ops != [] {
      LookupFindsLastSet(ops[..|ops| - 1], key);
    }
  }

  /** Something was set for this key since the store was created. */
  predicate EverSet(ops: seq<Op>, key: bytes) {
    if ops == [] then false
    else
      var op := ops[|ops| - 1];
      if op.Create? || op.Delete? then false
      else (((op.Set? && op.value.Some?) || op.SetInt?) && op.key == key) || EverSet(ops[..|ops| - 1], key)
  }

  lemma {:induction false} KeyThereIff(ops: seq<Op>, key: bytes)
    ensures var m := ApplyAll(None, ops).0;
            (m.Some? <==> Opened(ops)) && (m.Some? && key in m.value <==> Opened(ops) && EverSet(ops, key))
  {
    if ops != [] {
      KeyThereIff(ops[..|ops| - 1], key);
    }
  }

  /** What a caller is told, after any calls: what was last set of the kind it asks for, and whether anything was. */
  lemma AnswersTellLastSet(ops: seq<Op>, key: bytes)
    ensures ApplyAll(None, ops + [Get(key)]).1[|ops|] == Str(if Opened(ops) then LastSet(ops, key) else None)
    ensures ApplyAll(None, ops + [GetInt(key)]).1[|ops|] == Number(if Opened(ops) then LastSetInt(ops, key) else 0)
    ensures ApplyAll(None, ops + [Exists(key)]).1[|ops|] == Found(Opened(ops) && EverSet(ops, key))
  {
    hide LastSet, LastSetInt, EverSet, Opened;
    LookupFindsLastSet(ops, key);
    KeyThereIff(ops, key);
    assert forall op :: (ops + [op])[..|ops + [op]| - 1] == ops;
  }

  // ----- the table in memory -----

  class Element {
    const key: bytes
    var str: Option<bytes>
    var number: int
    var next: Element?

    /** calloc and strdup. */
    constructor (key: bytes)
      ensures this.key == key && str == None && number == 0 && next == null
    {
      this.key := key;
      str, number, next := None, 0, null;
    }
  }

  ghost function At(chain: seq<Element>, i: nat): Element? {
    if i < |chain| then chain[i] else null
  }

  lemma ValuesOfUpdate<K, V>(m: map<K, V>, k: K, v: V)
    requires k !in m
    ensures m[k := v].Values == m.Values + {v}
  {
    var w := m[k := v];
    forall e | e in m.Values ensures e in w.Values {
      var j :| j in m && m[j] == e;
      assert w[j] == e;
    }
    assert w[k] == v;
  }

  /** Bucket b holds this chain: linked in order, no element twice, each under its key, and of this hash. */
  ghost predicate Bucket(at: map<bytes, Element>, b: nat, head: Element?, chain: seq<Element>)
    reads at.Values
  {
    && head == At(chain, 0)
    && (forall i :: 0 <= i < |chain| ==> IsKey(chain[i].key) && MakeHash(chain[i].key) == b)
    && (forall i :: 0 <= i < |chain| ==> chain[i].key in at && at[chain[i].key] == chain[i])
    && (forall i, j :: 0 <= i < j < |chain| ==> chain[i].key != chain[j].key)
    && (forall i :: 0 <= i < |chain| ==> chain[i].next == At(chain, i + 1))
  }

  ghost predicate InBucket(e: Element, b: nat) {
    IsKey(e.key) && MakeHash(e.key) == b
  }

  /** The nodes of a chain: all different, all in the table, each leading to the next. */
  lemma BucketNodes(at: map<bytes, Element>, b: nat, head: Element?, chain: seq<Element>)
    requires Bucket(at, b, head, chain)
    ensures head == At(chain, 0) && forall i :: 0 <= i < |chain| ==> chain[i].next == At(chain, i + 1)
    ensures forall i, j :: 0 <= i < j < |chain| ==> chain[i] != chain[j]
    ensures forall e <- chain :: e in at.Values && InBucket(e, b)
  {
    hide MakeHash, IsKey;
  }

  ghost function Image(at: map<bytes, Element>): map<bytes, Value>
    reads at.Values
  {
    map k | k in at :: Value(at[k].str, at[k].number)
  }

  lemma BucketKept(at: map<bytes, Element>, b: nat, head: Element?, chain: seq<Element>, t: Element)
    requires Bucket(at, b, head, chain) && t.key !in at
    ensures Bucket(at[t.key := t], b, head, chain)
  {
    hide MakeHash, IsKey, At;
    ValuesOfUpdate(at, t.key, t);
  }

  lemma BucketCons(at: map<bytes, Element>, head: Element?, chain: seq<Element>, t: Element)
    requires IsKey(t.key) && Bucket(at, MakeHash(t.key), head, chain) && t.key !in at && t.next == head
    ensures Bucket(at[t.key := t], MakeHash(t.key), t, [t] + chain)
  {
    hide MakeHash, IsKey;
    ValuesOfUpdate(at, t.key, t);
    var c := [t] + chain;
    forall i | 0 <= i < |c| ensures c[i].next == At(c, i + 1) {
      if i > 0 {
        assert c[i] == chain[i - 1];
      }
    }
  }

  class Store {
    var hash: array?<Element?>
    var lastKey: Element?
    ghost var chains: seq<seq<Element>>
    ghost var at: map<bytes, Element>

    ghost predicate Valid()
      reads this, hash, at.Values
    {
      if hash == null then lastKey == null && at == map[]
      else
        && hash.Length == |chains| == MSS_HASH_SIZE
        && (forall b :: 0 <= b < MSS_HASH_SIZE ==> Bucket(at, b, hash[b], chains[b]))
        && (forall k :: k in at ==> at[k].key == k && IsKey(k) && at[k] in chains[MakeHash(k)])
        && (lastKey != null ==> lastKey in at.Values)
    }

    ghost function Contents(): Abstract
      reads this, at.Values
    {
      if hash == null then None else Some(Image(at))
    }

    ghost function Footprint(): set<object>
      reads this
    {
      {this} + (if hash == null then {} else {hash}) + at.Values
    }

    constructor ()
      ensures Valid() && Contents() == None && at == map[] && hash == null
    {
      hash, lastKey, chains, at := null, null, [], map[];
    }

    method CreateHash()
      modifies this
      ensures Valid() && Contents() == Some(map[]) && fresh(Footprint() - old(Footprint()))
    {
      hash := new Element?[MSS_HASH_SIZE](_ => null);
      lastKey := null;
      at := map[];
      chains := seq(MSS_HASH_SIZE, _ => []);
    }

    /** delete_hash: every element is released, none twice, and each one's successor is read before that. */
    method DeleteHash() returns (ghost freed: set<Element>)
      requires Valid()
      modifies this
      ensures Valid() && Contents() == None && fresh(Footprint() - old(Footprint()))
      ensures freed == old(at.Values)
    {
      hide MakeHash, IsKey, Bucket, InBucket;
      freed := {};
      if hash != null {
        for i := 0 to MSS_HASH_SIZE
          invariant Valid() && hash != null && at == old(at)
          invariant forall e <- freed :: e in at.Values && exists b :: 0 <= b < i && InBucket(e, b)
          invariant forall b :: 0 <= b < i ==> forall e <- chains[b] :: e in freed
        {
          ghost var released := DeleteChain(i);
          ghost var chain := set e | e in released;
          assert freed !! chain by { hide Valid; BucketsApart(freed, chain, i); }
          freed := freed + chain;
        }
        AllReleased(freed);
      }
      hash, lastKey, chains, at := null, null, [], map[];
    }

    lemma BucketsApart(freed: set<Element>, chain: set<Element>, i: nat)
      requires forall e <- freed :: exists b :: 0 <= b < i && InBucket(e, b)
      requires forall e <- chain :: InBucket(e, i)
      ensures freed !! chain
    {
      hide MakeHash, IsKey;
    }

    /** The nodes of one chain, one after the other; no node comes twice. */
    method DeleteChain(b: nat) returns (ghost released: seq<Element>)
      requires Valid() && hash != null && b < MSS_HASH_SIZE
      ensures released == chains[b]
      ensures forall i, j :: 0 <= i < j < |released| ==> released[i] != released[j]
      ensures forall e <- released :: e in at.Values && InBucket(e, b)
    {
      hide MakeHash, IsKey, Bucket;
      ghost var chain := chains[b];
      released := [];
      var t := hash[b];
      BucketNodes(at, b, hash[b], chain);
      while t != null
        invariant |released| <= |chain| && released == chain[..|released|] && t == At(chain, |released|)
        decreases |chain| - |released|
      {
        var n := t.next;
        released := released + [t];
        t := n;
      }
      assert released == chain;
    }

    lemma AllReleased(freed: set<Element>)
      requires Valid() && hash != null
      requires forall e <- freed :: e in at.Values
      requires forall b :: 0 <= b < MSS_HASH_SIZE ==> forall e <- chains[b] :: e in freed
      ensures freed == at.Values
    {
      hide MakeHash, IsKey, Bucket;
      forall e | e in at.Values ensures e in freed {
        var k :| k in at && at[k] == e;
        assert at[k] in chains[MakeHash(k)];
      }
    }

    /** The walk along the chain of the key's bucket. */
    method Find(key: bytes) returns (t: Element?)
      requires Valid() && hash != null && IsKey(key)
      ensures key in at ==> t == at[key]
      ensures key !in at ==> t == null
    {
      hide MakeHash;
      ghost var b, i := MakeHash(key), 0;
      ghost var chain := chains[b];
      t := hash[MakeHash(key)];
      while t != null
        invariant Bucket(at, b, hash[b], chain)
        invariant 0 <= i <= |chain|
        invariant t == At(chain, i)
        invariant forall j :: 0 <= j < i ==> chain[j].key != key
        decreases |chain| - i
      {
        if key == t.key {
          return t;
        }
        t := t.next;
        i := i + 1;
      }
    }

    /** A new element at the head of its bucket. */
    method Insert(t: Element)
      requires Valid() && hash != null && IsKey(t.key) && t.key !in at && t !in at.Values
      modifies this`chains, this`at, hash, t`next
      ensures Valid() && at == old(at)[t.key := t] && hash == old(hash) && lastKey == old(lastKey)
      ensures forall e <- old(at.Values) :: e.str == old(e.str) && e.number == old(e.number)
    {
      hide MakeHash, IsKey, Bucket;
      ghost var h, was, head := MakeHash(t.key), at, hash[MakeHash(t.key)];
      t.next := hash[MakeHash(t.key)];
      assert forall b :: 0 <= b < MSS_HASH_SIZE ==> Bucket(was, b, hash[b], chains[b]);
      hash[MakeHash(t.key)] := t;
      forall b | 0 <= b < MSS_HASH_SIZE && b != h ensures Bucket(was[t.key := t], b, hash[b], chains[b]) {
        BucketKept(was, b, hash[b], chains[b], t);
      }
      BucketCons(was, head, chains[h], t);
      at, chains := at[t.key := t], chains[h := [t] + chains[h]];
      ValuesOfUpdate(was, t.key, t);
    }

    /** Elements whose links are as they were still make the same chains. */
    twostate lemma StaysValid()
      requires old(Valid()) && hash == old(hash) && chains == old(chains) && at == old(at)
      requires hash != null ==> hash[..] == old(hash[..])
      requires forall e <- at.Values :: e.next == old(e.next)
      requires lastKey != null ==> lastKey in at.Values && hash != null
      ensures Valid()
    {
      hide IsKey, MakeHash, At;
      if hash != null {
        forall b | 0 <= b < MSS_HASH_SIZE ensures Bucket(at, b, hash[b], chains[b]) {
          assert old(Bucket(at, b, hash[b], chains[b])) && hash[b] == hash[..][b] == old(hash[..][b]);
        }
      }
    }

    /** Only the element of this key has changed. */
    twostate lemma OneChanged(key: bytes)
      requires old(Valid()) && hash == old(hash) != null && at == old(at) && key in at
      requires forall e <- at.Values :: e != at[key] ==> e.str == old(e.str) && e.number == old(e.number)
      ensures Contents() == Put(old(Contents()), key, Value(at[key].str, at[key].number))
      ensures Lookup(old(Contents()), key) == Value(old(at[key].str), old(at[key].number))
    {
      hide IsKey, MakeHash, Bucket;
      forall k | k in at && k != key ensures at[k].str == old(at[k].str) && at[k].number == old(at[k].number) {
        assert at[k].key == k;
      }
      assert Contents().value == old(Contents().value)[key := Value(at[key].str, at[key].number)];
    }

    /** There is one more element, with this key. */
    twostate lemma OneAdded(key: bytes, new t: Element)
      requires hash == old(hash) != null && key !in old(at) && at == old(at)[key := t]
      requires forall e <- old(at.Values) :: e.str == old(e.str) && e.number == old(e.number)
      ensures Contents() == Put(old(Contents()), key, Value(t.str, t.number))
      ensures Lookup(old(Contents()), key) == Value(None, 0)
    {
      assert Contents().value == old(Contents().value)[key := Value(t.str, t.number)];
    }

    method HashSet(key: bytes, value: Option<bytes>)
      requires Valid() && IsKey(key)
      modifies Footprint()
      ensures Valid() && fresh(Footprint() - old(Footprint()))
      ensures Contents() == Apply(old(Contents()), Set(key, value)).0
    {
      hide IsKey, MakeHash, Bucket, Image, Lookup;
      if hash != null && value.Some? {
        var t := Find(key);
        if t != null {
          t.str := value;
          StaysValid();
          OneChanged(key);
          return;
        }
        t := new Element(key);
        t.str := value;
        Insert(t);
        OneAdded(key, t);
      }
    }

    method HashSetInt(key: bytes, value: int)
      requires Valid() && IsKey(key)
      modifies Footprint()
      ensures Valid() && fresh(Footprint() - old(Footprint()))
      ensures Contents() == Apply(old(Contents()), SetInt(key, value)).0
    {
      hide IsKey, MakeHash, Bucket, Image, Lookup;
      if hash != null {
        var t := Find(key);
        if t != null {
          t.number := value;
          StaysValid();
          OneChanged(key);
          return;
        }
        t := new Element(key);
        t.number := value;
        Insert(t);
        OneAdded(key, t);
      }
    }

    /** The element of the key: the cached one if it is that, else the one in the chain, which is then cached. */
    method Seek(key: bytes) returns (t: Element?)
      requires Valid() && hash != null && IsKey(key)
      modifies this`lastKey
      ensures Valid() && t == if key in at then at[key] else null
    {
      hide IsKey, MakeHash, Bucket;
      if lastKey != null && key == lastKey.key {
        return lastKey;
      }
      t := Find(key);
      if t != null {
        lastKey := t;
      }
    }

    method HashExists(key: bytes) returns (found: bool)
      requires Valid() && IsKey(key)
      modifies this`lastKey
      ensures Valid() && Contents() == old(Contents()) && Found(found) == Apply(Contents(), Exists(key)).1
    {
      hide IsKey, MakeHash, Bucket;
      found := false;
      if hash != null {
        var t := Seek(key);
        found := t != null;
      }
    }

    method HashGet(key: bytes) returns (str: Option<bytes>)
      requires Valid() && IsKey(key)
      modifies this`lastKey
      ensures Valid() && Contents() == old(Contents()) && Str(str) == Apply(Contents(), Get(key)).1
    {
      hide IsKey, MakeHash, Bucket;
      str := None;
      if hash != null {
        var t := Seek(key);
        if t != null {
          str := t.str;
        }
      }
    }

    method HashGetInt(key: bytes) returns (number: int)
      requires Valid() && IsKey(key)
      modifies this`lastKey
      ensures Valid() && Contents() == old(Contents()) && Number(number) == Apply(Contents(), GetInt(key)).1
    {
      hide IsKey, MakeHash, Bucket;
      number := 0;
      if hash != null {
        var t := Seek(key);
        if t != null {
          number := t.number;
        }
      }
    }

    /** One call, as an operation on the abstract map. */
    method Perform(op: Op) returns (a: Answer)
      requires Valid() && Proper(op)
      modifies Footprint()
      ensures Valid() && fresh(Footprint() - old(Footprint()))
      ensures (Contents(), a) == Apply(old(Contents()), op)
    {
      hide IsKey, MakeHash, Bucket, Valid;
      a := Nothing;
      match op {
        case Create => CreateHash();
        case Delete =>
          ghost var _ := DeleteHash();
        case Set(key, value) => HashSet(key, value);
        case SetInt(key, n) => HashSetInt(key, n);
        case Exists(key) =>
          var found := HashExists(key);
          a := Found(found);
        case Get(key) =>
          var str := HashGet(key);
          a := Str(str);
        case GetInt(key) =>
          var n := HashGetInt(key);
          a := Number(n);
      }
    }

    /** Any sequence of calls answers as the abstract map does; the cache never shows. */
    method PerformAll(ops: seq<Op>) returns (as': seq<Answer>)
      requires Valid() && forall op <- ops :: Proper(op)
      modifies Footprint()
      ensures Valid() && (Contents(), as') == ApplyAll(old(Contents()), ops)
    {
      hide IsKey, MakeHash, Bucket, Valid, Apply, Contents;
      as' := [];
      for i := 0 to |ops|
        invariant Valid() && fresh(Footprint() - old(Footprint()))
        invariant (Contents(), as') == ApplyAll(old(Contents()), ops[..i])
      {
        var a := Perform(ops[i]);
        as' := as' + [a];
        assert ops[..i + 1][..i] == ops[..i];
      }
      assert ops[..|ops|] == ops;
    }
  }
}
