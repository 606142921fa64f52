/** The chained hash table, against a finite map, for any hash function.

    Table sizes are powers of two, so `hash & mask` is the remainder by the size. Chains are values
    first, then linked nodes laid out along them. */
module HashMap {

  import opened Options

  type Key = seq<bv8>

  datatype Node<V> = Node(key: Key, value: V, hash: nat)

  type Chain<V> = seq<Node<V>>

  predicate PowerOfTwo(n: nat) { n == 1 || (n > 1 && n % 2 == 0 && PowerOfTwo(n / 2)) }

  lemma Doubled(n: nat)
    ensures PowerOfTwo(n) ==> PowerOfTwo(2 * n)
  {
  }

  // ----- chains and tables ----------------------------------------------------------------------------------

  /** The chain binds `k` to `v`. */
  ghost predicate Binds<V>(c: Chain<V>, k: Key, v: V) {
    exists i :: 0 <= i < |c| && c[i].key == k && c[i].value == v
  }

  predicate HasKey<V>(c: Chain<V>, k: Key) {
    exists i :: 0 <= i < |c| && c[i].key == k
  }

  /** Every node is in the bucket its hash selects, no key is in a chain twice. */
  predicate ChainOk<V>(h: Key -> nat, c: Chain<V>, b: nat, n: nat)
    requires n > 0
  {
    && (forall i :: 0 <= i < |c| ==> c[i].hash == h(c[i].key) && c[i].hash % n == b)
    && (forall i, j :: 0 <= i < j < |c| ==> c[i].key != c[j].key)
  }

  predicate TableOk<V>(h: Key -> nat, t: seq<Chain<V>>) {
    |t| > 0 && forall b :: 0 <= b < |t| ==> ChainOk(h, t[b], b, |t|)
  }

  /** The chain that may hold `k`. */
  function Bucket<V>(h: Key -> nat, t: seq<Chain<V>>, k: Key): Chain<V>
    requires |t| > 0
  {
    t[h(k) % |t|]
  }

  /** The table binds exactly what the map does. */
  ghost predicate Refines<V>(h: Key -> nat, t: seq<Chain<V>>, view: map<Key, V>)
    requires |t| > 0
  {
    && (forall k :: k in view <==> HasKey(Bucket(h, t, k), k))
    && (forall k :: k in view ==> Binds(Bucket(h, t, k), k, view[k]))
  }

  /** A key has one value in a chain. */
  lemma OneValue<V>(h: Key -> nat, c: Chain<V>, b: nat, n: nat, k: Key, i: nat, v: V)
    requires n > 0 && ChainOk(h, c, b, n) && i < |c| && c[i].key == k && Binds(c, k, v)
    ensures c[i].value == v
  {
  }

  // ----- the steps, on values ---------------------------------------------------------------------------------

  /** Replacing the chain that may hold `k` by one that differs only about `k`. */
  lemma Rebinds<V>(h: Key -> nat, t: seq<Chain<V>>, view: map<Key, V>, k: Key, c: Chain<V>, view': map<Key, V>)
    requires TableOk(h, t) && Refines(h, t, view) && ChainOk(h, c, h(k) % |t|, |t|)
    requires forall x :: x != k ==> (HasKey(c, x) <==> HasKey(Bucket(h, t, k), x))
    requires forall x, v :: x != k ==> (Binds(c, x, v) <==> Binds(Bucket(h, t, k), x, v))
    requires k in view' <==> HasKey(c, k)
    requires k in view' ==> Binds(c, k, view'[k])
    requires forall x :: x != k ==> (x in view' <==> x in view) && (x in view ==> view'[x] == view[x])
    ensures TableOk(h, t[h(k) % |t| := c]) && Refines(h, t[h(k) % |t| := c], view')
  {
    hide ChainOk, HasKey, Binds;
    var b := h(k) % |t|;
    var u := t[b := c];
    forall x ensures x in view' <==> HasKey(Bucket(h, u, x), x) {
      if h(x) % |t| == b { assert Bucket(h, t, x) == Bucket(h, t, k); }
    }
    forall x | x in view' ensures Binds(Bucket(h, u, x), x, view'[x]) {
      if h(x) % |t| == b { assert Bucket(h, t, x) == Bucket(h, t, k); }
    }
  }

  /** A new node at the front of a chain. */
  lemma Pushes<V>(h: Key -> nat, c: Chain<V>, b: nat, n: nat, e: Node<V>)
    requires n > 0 && ChainOk(h, c, b, n) && !HasKey(c, e.key) && e.hash == h(e.key) && e.hash % n == b
    ensures ChainOk(h, [e] + c, b, n) && HasKey([e] + c, e.key) && Binds([e] + c, e.key, e.value)
    ensures forall x :: x != e.key ==> (HasKey([e] + c, x) <==> HasKey(c, x))
    ensures forall x, v :: x != e.key ==> (Binds([e] + c, x, v) <==> Binds(c, x, v))
  {
    var d := [e] + c;
    assert d[0] == e && forall i :: 0 <= i < |c| ==> d[i + 1] == c[i];
    forall i, j | 0 <= i < j < |d| ensures d[i].key != d[j].key {
      if i == 0 { assert d[j] == c[j - 1]; } else { assert d[i] == c[i - 1] && d[j] == c[j - 1]; }
    }
    forall x | x != e.key ensures HasKey(d, x) <==> HasKey(c, x) {
      if HasKey(d, x) { var i :| 0 <= i < |d| && d[i].key == x; assert c[i - 1].key == x; }
      if HasKey(c, x) { var i :| 0 <= i < |c| && c[i].key == x; assert d[i + 1].key == x; }
    }
    forall x, v | x != e.key ensures Binds(d, x, v) <==> Binds(c, x, v) {
      if Binds(d, x, v) { var i :| 0 <= i < |d| && d[i].key == x && d[i].value == v; assert c[i - 1] == d[i]; }
      if Binds(c, x, v) { var i :| 0 <= i < |c| && c[i].key == x && c[i].value == v; assert d[i + 1] == c[i]; }
    }
  }

  /** A node's value is replaced. */
  lemma Updates<V>(h: Key -> nat, c: Chain<V>, b: nat, n: nat, i: nat, v: V)
    requires n > 0 && ChainOk(h, c, b, n) && i < |c|
    ensures var k := c[i].key; var d := c[i := Node(k, v, c[i].hash)];
      && ChainOk(h, d, b, n) && HasKey(d, k) && Binds(d, k, v)
      && (forall x :: x != k ==> (HasKey(d, x) <==> HasKey(c, x)))
      && (forall x, w :: x != k ==> (Binds(d, x, w) <==> Binds(c, x, w)))
  {
    var k := c[i].key;
    var d := c[i := Node(k, v, c[i].hash)];
    assert d[i].key == k && d[i].value == v;
    forall x | x != k ensures HasKey(d, x) <==> HasKey(c, x) {
      if HasKey(d, x) { var j :| 0 <= j < |d| && d[j].key == x; assert c[j].key == x; }
      if HasKey(c, x) { var j :| 0 <= j < |c| && c[j].key == x; assert d[j].key == x; }
    }
    forall x, w | x != k ensures Binds(d, x, w) <==> Binds(c, x, w) {
      if Binds(d, x, w) { var j :| 0 <= j < |d| && d[j].key == x && d[j].value == w; assert c[j] == d[j]; }
      if Binds(c, x, w) { var j :| 0 <= j < |c| && c[j].key == x && c[j].value == w; assert d[j] == c[j]; }
    }
  }

  /** A node is unlinked. */
  lemma Deletes<V>(h: Key -> nat, c: Chain<V>, b: nat, n: nat, i: nat)
    requires n > 0 && ChainOk(h, c, b, n) && i < |c|
    ensures var k := c[i].key; var d := c[..i] + c[i + 1..];
      && ChainOk(h, d, b, n) && !HasKey(d, k)
      && (forall x :: x != k ==> (HasKey(d, x) <==> HasKey(c, x)))
      && (forall x, w :: x != k ==> (Binds(d, x, w) <==> Binds(c, x, w)))
  {
    var k := c[i].key;
    var d := c[..i] + c[i + 1..];
    assert forall j :: 0 <= j < |d| ==> d[j] == if j < i then c[j] else c[j + 1];
    forall x ensures x != k ==> (HasKey(d, x) <==> HasKey(c, x)) { DeletesKey(c, i, x); }
    forall x, w ensures x != k ==> (Binds(d, x, w) <==> Binds(c, x, w)) { DeletesValue(c, i, x, w); }
    hide Binds;
  }

  lemma DeletesKey<V>(c: Chain<V>, i: nat, x: Key)
    requires i < |c|
    ensures x != c[i].key ==> (HasKey(c[..i] + c[i + 1..], x) <==> HasKey(c, x))
  {
    var d := c[..i] + c[i + 1..];
    if HasKey(d, x) { var j :| 0 <= j < |d| && d[j].key == x; assert c[if j < i then j else j + 1].key == x; }
    if x != c[i].key && HasKey(c, x) {
      var j :| 0 <= j < |c| && c[j].key == x;
      assert d[if j < i then j else j - 1].key == x;
    }
  }

  lemma DeletesValue<V>(c: Chain<V>, i: nat, x: Key, w: V)
    requires i < |c|
    ensures x != c[i].key ==> (Binds(c[..i] + c[i + 1..], x, w) <==> Binds(c, x, w))
  {
    var d := c[..i] + c[i + 1..];
    if Binds(d, x, w) {
      var j :| 0 <= j < |d| && d[j].key == x && d[j].value == w;
      assert c[if j < i then j else j + 1] == d[j];
    }
    if x != c[i].key && Binds(c, x, w) {
      var j :| 0 <= j < |c| && c[j].key == x && c[j].value == w;
      assert d[if j < i then j else j - 1] == c[j];
    }
  }

  // ----- growing ------------------------------------------------------------------------------------------------

  /** Two tables that together bind what the map does, no key in both. */
  ghost predicate Split<V>(h: Key -> nat, t: seq<Chain<V>>, u: seq<Chain<V>>, view: map<Key, V>)
    requires |t| > 0 && |u| > 0
  {
    && TableOk(h, t) && TableOk(h, u)
    && (forall k :: k in view <==> HasKey(Bucket(h, t, k), k) || HasKey(Bucket(h, u, k), k))
    && (forall k :: !(HasKey(Bucket(h, t, k), k) && HasKey(Bucket(h, u, k), k)))
    && (forall k :: k in view ==> Binds(Bucket(h, t, k), k, view[k]) || Binds(Bucket(h, u, k), k, view[k]))
  }

  /** The first node of a chain moves to the other table. */
  lemma Relinks<V>(h: Key -> nat, t: seq<Chain<V>>, u: seq<Chain<V>>, view: map<Key, V>, i: nat)
    requires |t| > 0 && |u| > 0 && Split(h, t, u, view) && i < |t| && t[i] != []
    ensures var e := t[i][0]; var j := e.hash % |u|;
      |t[i := t[i][1..]]| > 0 && Split(h, t[i := t[i][1..]], u[j := [e] + u[j]], view)
  {
    hide ChainOk, HasKey, Binds;
    var e := t[i][0];
    var j := e.hash % |u|;
    RelinkFacts(h, t, u, view, i);
    var t', u' := t[i := t[i][1..]], u[j := [e] + u[j]];
    forall k
      ensures k in view <==> HasKey(Bucket(h, t', k), k) || HasKey(Bucket(h, u', k), k)
      ensures !(HasKey(Bucket(h, t', k), k) && HasKey(Bucket(h, u', k), k))
      ensures k in view ==> Binds(Bucket(h, t', k), k, view[k]) || Binds(Bucket(h, u', k), k, view[k])
    {
      BucketAfter(h, t, i, t[i][1..], k);
      BucketAfter(h, u, j, [e] + u[j], k);
    }
  }

  /** What the move does to the two chains. */
  lemma RelinkFacts<V>(h: Key -> nat, t: seq<Chain<V>>, u: seq<Chain<V>>, view: map<Key, V>, i: nat)
    requires |t| > 0 && |u| > 0 && Split(h, t, u, view) && i < |t| && t[i] != []
    ensures var e := t[i][0]; var j := e.hash % |u|; var c, d := t[i][1..], [e] + u[j];
      && h(e.key) % |t| == i && h(e.key) % |u| == j && ChainOk(h, c, i, |t|) && ChainOk(h, d, j, |u|)
      && !HasKey(c, e.key) && HasKey(d, e.key) && Binds(d, e.key, e.value)
      && e.key in view && view[e.key] == e.value
      && (forall x :: x != e.key ==> (HasKey(c, x) <==> HasKey(t[i], x)) && (HasKey(d, x) <==> HasKey(u[j], x)))
      && (forall x, v :: x != e.key ==>
            (Binds(c, x, v) <==> Binds(t[i], x, v)) && (Binds(d, x, v) <==> Binds(u[j], x, v)))
  {
    var e := t[i][0];
    var j := e.hash % |u|;
    assert ChainOk(h, t[i], i, |t|) && ChainOk(h, u[j], j, |u|);
    assert t[i][..0] + t[i][1..] == t[i][1..];
    assert HasKey(t[i], e.key) && Bucket(h, t, e.key) == t[i] && Bucket(h, u, e.key) == u[j];
    OnlyHere(h, t, u, view, i);
    hide Split, TableOk, Binds;
    Deletes(h, t[i], i, |t|, 0);
    Pushes(h, u[j], j, |u|, e);
  }

  lemma OnlyHere<V>(h: Key -> nat, t: seq<Chain<V>>, u: seq<Chain<V>>, view: map<Key, V>, i: nat)
    requires |t| > 0 && |u| > 0 && Split(h, t, u, view) && i < |t| && t[i] != []
    ensures var e := t[i][0]; e.key in view && view[e.key] == e.value && !HasKey(Bucket(h, u, e.key), e.key)
  {
    var e := t[i][0];
    assert ChainOk(h, t[i], i, |t|) && HasKey(t[i], e.key) && Bucket(h, t, e.key) == t[i];
    assert !Binds(Bucket(h, u, e.key), e.key, view[e.key]);
    OneValue(h, t[i], i, |t|, e.key, 0, view[e.key]);
  }

  lemma BucketAfter<V>(h: Key -> nat, t: seq<Chain<V>>, i: nat, c: Chain<V>, k: Key)
    requires i < |t|
    ensures Bucket(h, t[i := c], k) == if h(k) % |t| == i then c else Bucket(h, t, k)
    ensures h(k) % |t| == i ==> Bucket(h, t, k) == t[i]
  {
  }

  /** When the old table is empty the new one has it all. */
  lemma SplitDone<V>(h: Key -> nat, t: seq<Chain<V>>, u: seq<Chain<V>>, view: map<Key, V>)
    requires |t| > 0 && |u| > 0 && Split(h, t, u, view) && forall i :: 0 <= i < |t| ==> t[i] == []
    ensures TableOk(h, u) && Refines(h, u, view)
  {
    assert forall k :: !HasKey(Bucket(h, t, k), k);
    forall k | k in view ensures Binds(Bucket(h, u, k), k, view[k]) { assert !Binds(Bucket(h, t, k), k, view[k]); }
  }

  /** And at the start the old one has. */
  lemma SplitStart<V>(h: Key -> nat, t: seq<Chain<V>>, u: seq<Chain<V>>, view: map<Key, V>)
    requires |t| > 0 && |u| > 0 && TableOk(h, t) && Refines(h, t, view) && forall i :: 0 <= i < |u| ==> u[i] == []
    ensures Split(h, t, u, view)
  {
  }

  // ----- linked nodes -------------------------------------------------------------------------------------------

  class Entry<V> {
    const key: Key
    const hash: nat
    var value: V
    var next: Entry?<V>

    constructor (key: Key, hash: nat, value: V, next: Entry?<V>)
      ensures this.key == key && this.hash == hash && this.value == value && this.next == next
    {
      this.key, this.hash, this.value, this.next := key, hash, value, next;
    }
  }

  /** The nodes of a chain, in order. */
  type Nodes<V> = seq<Entry<V>>

  function Nth<V>(c: Nodes<V>, i: nat): Entry?<V> { if i < |c| then c[i] else null }

  ghost predicate LinkAt<V>(c: Nodes<V>, i: nat)
    requires i < |c|
    reads c
  {
    c[i].next == Nth(c, i + 1)
  }

  /** From `head`, the links lead along the nodes of `c` and end. */
  ghost predicate Linked<V>(head: Entry?<V>, c: Nodes<V>)
    reads c
  {
    head == Nth(c, 0) && forall i :: 0 <= i < |c| ==> LinkAt(c, i)
  }

  /** What the nodes of a chain hold. */
  ghost function Values<V>(c: Nodes<V>): (r: Chain<V>)
    reads c
    ensures |r| == |c|
  {
    if c == [] then [] else [Node(c[0].key, c[0].value, c[0].hash)] + Values(c[1..])
  }

  lemma {:induction false} ValuesAre<V>(c: Nodes<V>)
    ensures forall i :: 0 <= i < |c| ==> Values(c)[i] == Node(c[i].key, c[i].value, c[i].hash)
  {
    if c != [] { ValuesAre(c[1..]); }
  }

  ghost predicate Within<V>(chains: seq<Nodes<V>>, nodes: set<Entry<V>>) {
    forall b, i :: 0 <= b < |chains| && 0 <= i < |chains[b]| ==> chains[b][i] in nodes
  }

  /** What the buckets hold. */
  ghost function Table<V>(chains: seq<Nodes<V>>, nodes: set<Entry<V>>): (t: seq<Chain<V>>)
    requires Within(chains, nodes)
    reads nodes
    ensures |t| == |chains|
  {
    if chains == [] then [] else [Values(chains[0])] + Table(chains[1..], nodes)
  }

  lemma {:induction false} TableIs<V>(chains: seq<Nodes<V>>, nodes: set<Entry<V>>)
    requires Within(chains, nodes)
    ensures forall b :: 0 <= b < |chains| ==> Table(chains, nodes)[b] == Values(chains[b])
  {
    if chains != [] { TableIs(chains[1..], nodes); }
  }

  lemma TableOf<V>(chains: seq<Nodes<V>>, nodes: set<Entry<V>>, t: seq<Chain<V>>)
    requires Within(chains, nodes) && |t| == |chains| && forall b :: 0 <= b < |chains| ==> Values(chains[b]) == t[b]
    ensures Table(chains, nodes) == t
  {
    TableIs(chains, nodes);
  }

  /** Every bucket of `a` heads its chain. */
  ghost predicate LaidOut<V>(a: array<Entry?<V>>, chains: seq<Nodes<V>>, nodes: set<Entry<V>>)
    reads a, nodes
  {
    && a.Length == |chains| && Within(chains, nodes)
    && forall b :: 0 <= b < |chains| ==> Linked(a[b], chains[b])
  }

  /** A node is in one place only. */
  lemma OnePlace<V>(h: Key -> nat, chains: seq<Nodes<V>>, nodes: set<Entry<V>>, b: nat, i: nat)
    requires Within(chains, nodes) && TableOk(h, Table(chains, nodes)) && b < |chains| && i < |chains[b]|
    ensures forall c, j :: 0 <= c < |chains| && 0 <= j < |chains[c]| && chains[c][j] == chains[b][i] ==>
      c == b && j == i
  {
    var t := Table(chains, nodes);
    TableIs(chains, nodes);
    forall c, j | 0 <= c < |chains| && 0 <= j < |chains[c]| && chains[c][j] == chains[b][i] ensures c == b && j == i {
      assert ChainOk(h, t[c], c, |t|) && ChainOk(h, t[b], b, |t|);
      ValuesAre(chains[c]);
      ValuesAre(chains[b]);
      assert t[c][j] == t[b][i];
    }
  }

  // ----- the table ----------------------------------------------------------------------------------------------

  const FULL_RATIO: nat := 3

  class HMap<V> {
    const hash: Key -> nat
    var hashes: array<Entry?<V>>
    var count: int
    /** The nodes of each bucket, and all of them. */
    ghost var chains: seq<Nodes<V>>
    ghost var nodes: set<Entry<V>>
    /** The map the table stands for. */
    ghost var view: map<Key, V>

    ghost predicate Valid()
      reads this, hashes, nodes
    {
      && PowerOfTwo(hashes.Length) && hashes.Length > 0 && LaidOut(hashes, chains, nodes)
      && TableOk(hash, Table(chains, nodes)) && Refines(hash, Table(chains, nodes), view) && count == |view|
    }

    /** hmp_init. The check on the size lets 0 through, and then there is no bucket for any key. */
    constructor (hash: Key -> nat, lg: nat)
      requires lg == 0 || PowerOfTwo(lg)
      ensures (Valid() <==> lg > 0) && view == map[] && fresh(hashes) && fresh(nodes)
      ensures this.hash == hash && hashes.Length == lg
    {
      this.hash := hash;
      hashes := new Entry?<V>[lg](i => null);
      count := 0;
      chains, nodes, view := seq(lg, i => []), {}, map[];
      new;
      hide Values, Table, LaidOut, PowerOfTwo;
      AllEmpty(hashes, chains, nodes);
      NothingYet(hash, Table(chains, nodes), view);
    }

    /** The walk along a chain: the node with key `k`, or null. */
    method Seek(b: nat, k: Key) returns (e: Entry?<V>, ghost i: nat)
      requires LaidOut(hashes, chains, nodes) && b < hashes.Length
      ensures i <= |chains[b]| && e == Nth(chains[b], i) && (e != null ==> e in nodes && e.key == k)
      ensures e == null <==> !HasKey(Values(chains[b]), k)
    {
      ghost var c := chains[b];
      hide Values, HasKey;
      assert Linked(hashes[b], c);
      HasNode(c, k);
      e, i := hashes[b], 0;
      while e != null && e.key != k
        invariant i <= |c| && e == Nth(c, i) && forall j :: 0 <= j < i ==> c[j].key != k
        decreases |c| - i
      {
        assert LinkAt(c, i);
        e := e.next;
        i := i + 1;
      }
    }

    /** hmp_get */
    method Get(k: Key) returns (r: Option<V>)
      requires Valid()
      ensures r == if k in view then Some(view[k]) else None
    {
      hide PowerOfTwo, TableOk, Refines, LaidOut;
      var b := hash(k) % hashes.Length;
      Sizes(hashes, chains, nodes);
      ghost var t := Table(chains, nodes);
      InBucket(hash, t, view, k);
      var e, i := Seek(b, k);
      if e == null {
        return None;
      }
      Bound(hash, t, view, k);
      ValuesAre(chains[b]);
      OneValue(hash, t[b], b, |t|, k, i, view[k]);
      return Some(e.value);
    }

    /** A node gets a new value. */
    method SetValue(e: Entry<V>, v: V, ghost b: nat, ghost i: nat)
      requires LaidOut(hashes, chains, nodes) && TableOk(hash, Table(chains, nodes))
      requires b < |chains| && i < |chains[b]| && chains[b][i] == e && e in nodes
      modifies e`value
      ensures LaidOut(hashes, chains, nodes)
      ensures Table(chains, nodes)
           == old(Table(chains, nodes))[b := old(Values(chains[b]))[i := Node(e.key, v, e.hash)]]
    {
      ghost var t := Table(chains, nodes);
      OnePlace(hash, chains, nodes, b, i);
      TableIs(chains, nodes);
      ValuesAre(chains[b]);
      e.value := v;
      forall c | 0 <= c < |chains| ensures Linked(hashes[c], chains[c]) { assert old(Linked(hashes[c], chains[c])); }
      ValuesAre(chains[b]);
      assert Values(chains[b]) == t[b][i := Node(e.key, v, e.hash)];
      forall c | 0 <= c < |chains| && c != b ensures Values(chains[c]) == t[c] { assert e !in chains[c]; }
      TableOf(chains, nodes, t[b := t[b][i := Node(e.key, v, e.hash)]]);
    }

    /** A node enters at the front of its bucket. */
    method Prepend(k: Key, v: V, b: nat)
      requires LaidOut(hashes, chains, nodes) && b < hashes.Length
      modifies this`chains, this`nodes, hashes
      ensures LaidOut(hashes, chains, nodes) && fresh(nodes - old(nodes)) && old(nodes) <= nodes
      ensures Table(chains, nodes) == var t := old(Table(chains, nodes)); t[b := [Node(k, v, hash(k))] + t[b]]
    {
      ghost var t, c := Table(chains, nodes), chains[b];
      TableIs(chains, nodes);
      var e := new Entry(k, hash(k), v, hashes[b]);
      hashes[b] := e;
      chains := chains[b := [e] + c];
      nodes := nodes + {e};
      Prepended(old(hashes[b]), c, e);
      hide Linked, Values, Table;
      forall d | 0 <= d < |chains| ensures Linked(hashes[d], chains[d]) && (d != b ==> Values(chains[d]) == t[d]) {
        assert old(Linked(hashes[d], chains[d]));
      }
      TableOf(chains, nodes, t[b := [Node(k, v, hash(k))] + t[b]]);
    }

    /** The end of hmp_put: a key that is not there goes to the front of its chain. */
    method Insert(k: Key, v: V)
      requires Valid() && k !in view
      modifies this`count, this`view, this`chains, this`nodes, hashes
      ensures Valid() && view == old(view)[k := v] && fresh(nodes - old(nodes))
    {
      hide PowerOfTwo, ChainOk, TableOk, Refines, HasKey, Binds, LaidOut;
      var b := hash(k) % hashes.Length;
      Sizes(hashes, chains, nodes);
      ghost var t := Table(chains, nodes);
      InBucket(hash, t, view, k);
      Pushes(hash, t[b], b, |t|, Node(k, v, hash(k)));
      Rebinds(hash, t, view, k, [Node(k, v, hash(k))] + t[b], view[k := v]);
      Prepend(k, v, b);
      count := count + 1;
      view := view[k := v];
    }

    /** hmp_put */
    method Put(k: Key, v: V)
      requires Valid()
      modifies this, hashes, nodes
      ensures Valid() && view == old(view)[k := v]
      ensures (hashes == old(hashes) || fresh(hashes)) && fresh(nodes - old(nodes))
      // the table doubles exactly when a new key finds it overfull
      ensures if k !in old(view) && |old(view)| > FULL_RATIO * old(hashes.Length)
              then hashes.Length == 2 * old(hashes.Length) else hashes == old(hashes)
    {
      hide PowerOfTwo, ChainOk, TableOk, Refines, HasKey, Binds, LaidOut, Values, Table;
      var b := hash(k) % hashes.Length;
      Sizes(hashes, chains, nodes);
      ghost var t := Table(chains, nodes);
      InBucket(hash, t, view, k);
      var e, i := Seek(b, k);
      if e != null {
        ValuesAre(chains[b]);
        Updates(hash, t[b], b, |t|, i, v);
        Rebinds(hash, t, view, k, t[b][i := Node(k, v, e.hash)], view[k := v]);
        SetValue(e, v, b, i);
        view := view[k := v];
        return;
      }
      if count > FULL_RATIO * hashes.Length {
        Grow();
      }
      Insert(k, v);
    }

    /** While hmap_grow works: `t` are the nodes still in the old table, `u` those in the new one, and the
        first `i` old buckets are empty. */
    ghost predicate Moving(htable: array<Entry?<V>>, t: seq<Nodes<V>>, u: seq<Nodes<V>>, i: nat)
      reads this, hashes, htable, nodes
    {
      && htable != hashes && |t| > 0 && |u| > 0 && LaidOut(hashes, t, nodes) && LaidOut(htable, u, nodes)
      && Split(hash, Table(t, nodes), Table(u, nodes), view)
      && forall b :: 0 <= b < i && b < |t| ==> t[b] == []
    }

    /** The body of the inner loop of hmap_grow: the first node of an old bucket is relinked. */
    method RelinkHead(htable: array<Entry?<V>>, i: nat, ghost t: seq<Nodes<V>>, ghost u: seq<Nodes<V>>)
      returns (ghost t': seq<Nodes<V>>, ghost u': seq<Nodes<V>>)
      requires Moving(htable, t, u, i) && i < |t| && hashes[i] != null
      modifies hashes, htable, nodes
      ensures Moving(htable, t', u', i) && |t'| == |t| && |u'| == |u| && |t'[i]| < |t[i]|
      ensures t[i] != [] && t' == t[i := t[i][1..]]
      ensures var e := t[i][0]; var j := e.hash % |u|; u' == u[j := [e] + u[j]]
    {
      hide Split, Linked, Values, Table;
      ghost var tv, uv := Table(t, nodes), Table(u, nodes);
      TableIs(t, nodes);
      TableIs(u, nodes);
      FirstOf(hashes[i], t[i]);
      var e := hashes[i];
      var j := e.hash % htable.Length;
      Relinks(hash, tv, uv, view, i);
      NoneElse(hash, t, u, nodes, view, i);
      t', u' := t[i := t[i][1..]], u[j := [e] + u[j]];
      hashes[i] := e.next;
      e.next := htable[j];
      htable[j] := e;
      forall b | 0 <= b < |t'| ensures Linked(hashes[b], t'[b]) && (b != i ==> Values(t'[b]) == tv[b]) {
        assert old(Linked(hashes[b], t[b]));
      }
      TableOf(t', nodes, tv[i := tv[i][1..]]);
      Prepended(old(htable[j]), u[j], e);
      forall b | 0 <= b < |u'| ensures Linked(htable[b], u'[b]) && (b != j ==> Values(u'[b]) == uv[b]) {
        assert old(Linked(htable[b], u[b]));
      }
      TableOf(u', nodes, uv[j := [tv[i][0]] + uv[j]]);
    }

    lemma StartMoving(htable: array<Entry?<V>>, t: seq<Nodes<V>>, u: seq<Nodes<V>>)
      requires Valid() && htable != hashes && t == chains && htable.Length == |u| > 0
      requires forall b :: 0 <= b < |u| ==> htable[b] == null && u[b] == []
      ensures Moving(htable, t, u, 0) && |t| == hashes.Length
    {
      hide Values, Table, PowerOfTwo, TableOk, Refines, Split;
      AllEmpty(htable, u, nodes);
      SplitStart(hash, Table(t, nodes), Table(u, nodes), view);
    }

    lemma NextBucket(htable: array<Entry?<V>>, t: seq<Nodes<V>>, u: seq<Nodes<V>>, i: nat)
      requires Moving(htable, t, u, i) && i < |t| && hashes[i] == null
      ensures Moving(htable, t, u, i + 1)
    {
      hide Values, Table, Split;
      FirstOf(hashes[i], t[i]);
    }

    lemma DoneMoving(htable: array<Entry?<V>>, t: seq<Nodes<V>>, u: seq<Nodes<V>>)
      requires Moving(htable, t, u, |t|)
      ensures LaidOut(htable, u, nodes) && TableOk(hash, Table(u, nodes)) && Refines(hash, Table(u, nodes), view)
    {
      hide Table, Split, TableOk, Refines;
      TableIs(t, nodes);
      SplitDone(hash, Table(t, nodes), Table(u, nodes), view);
    }

    /** hmap_grow: a table of twice the size, every node relinked. */
    method Grow()
      requires Valid()
      modifies this`hashes, this`chains, hashes, nodes
      ensures Valid() && fresh(hashes) && hashes.Length == 2 * old(hashes.Length)
    {
      hide TableOk, Refines, PowerOfTwo, LaidOut, Moving;
      var n, lg := hashes.Length, 2 * hashes.Length;
      Doubled(n);
      var htable := new Entry?<V>[lg](i => null);
      ghost var t: seq<Nodes<V>>, u: seq<Nodes<V>> := chains, seq(lg, i => []);
      StartMoving(htable, t, u);
      for i := 0 to n
        invariant hashes == old(hashes) && fresh(htable) && |t| == n && |u| == lg && Moving(htable, t, u, i)
      {
        while hashes[i] != null
          invariant hashes == old(hashes) && fresh(htable) && |t| == n && |u| == lg && Moving(htable, t, u, i)
          decreases |t[i]|
        {
          t, u := RelinkHead(htable, i, t, u);
        }
        NextBucket(htable, t, u, i);
      }
      DoneMoving(htable, t, u);
      hashes := htable;
      chains := u;
    }

    /** The bucket, or the node before the one at `i` of its chain `c`, is made to point past that one. */
    method Bypass(b: nat, prev: Entry?<V>, ghost c: Nodes<V>, ghost i: nat)
      requires b < hashes.Length && Linked(hashes[b], c) && i < |c|
      requires forall j :: 0 <= j < |c| && j != i - 1 ==> c[j] != prev
      requires if i == 0 then prev == null else prev == c[i - 1]
      modifies hashes, if prev == null then {} else {prev}
      ensures hashes[..] == old(hashes[..])[b := hashes[b]]
      ensures Linked(hashes[b], c[..i] + c[i + 1..])
      ensures Values(c[..i] + c[i + 1..]) == old(Values(c))[..i] + old(Values(c))[i + 1..]
    {
      hide Values;
      ghost var v := Values(c);
      ValuesAre(c);
      assert LinkAt(c, i) && (i > 0 ==> LinkAt(c, i - 1));
      if prev == null {
        hashes[b] := hashes[b].next;
      } else {
        prev.next := prev.next.next;
      }
      forall j | 0 <= j < |c| && j != i ensures SkipAt(c, i, j) { assert old(LinkAt(c, j)); }
      ValuesAre(c);
      assert Values(c) == v;
      ValuesPast(c, i);
      Bypassed(hashes[b], c, i);
    }

    /** The node at `i` of bucket `b` leaves its chain. */
    method Unlink(b: nat, prev: Entry?<V>, ghost i: nat)
      requires LaidOut(hashes, chains, nodes) && TableOk(hash, Table(chains, nodes)) && b < |chains| && i < |chains[b]|
      requires if i == 0 then prev == null else prev == chains[b][i - 1]
      modifies this`chains, hashes, nodes
      ensures LaidOut(hashes, chains, nodes)
      ensures var c := old(Values(chains[b]));
        |c| > i && Table(chains, nodes) == old(Table(chains, nodes))[b := c[..i] + c[i + 1..]]
    {
      hide Values, Table, TableOk, Linked;
      ghost var t, c := Table(chains, nodes), chains[b];
      TableIs(chains, nodes);
      OnePlace(hash, chains, nodes, b, if i == 0 then 0 else i - 1);
      Bypass(b, prev, c, i);
      chains := chains[b := c[..i] + c[i + 1..]];
      forall d | 0 <= d < |chains| ensures Linked(hashes[d], chains[d]) && (d != b ==> Values(chains[d]) == t[d]) {
        assert old(Linked(hashes[d], chains[d]));
        assert d != b ==> hashes[d] == hashes[..][d] == old(hashes[..])[d];
      }
      TableOf(chains, nodes, t[b := t[b][..i] + t[b][i + 1..]]);
    }

    /** The walk of hmp_remove: the node with key `k` and the one before it, if any. */
    method SeekPrev(b: nat, k: Key) returns (prev: Entry?<V>, found: bool, ghost i: nat)
      requires LaidOut(hashes, chains, nodes) && b < hashes.Length
      ensures found <==> HasKey(Values(chains[b]), k)
      ensures found ==>
        && i < |chains[b]| && chains[b][i].key == k
        && if i == 0 then prev == null else prev == chains[b][i - 1]
    {
      hide Values, HasKey;
      ghost var c := chains[b];
      assert Linked(hashes[b], c);
      HasNode(c, k);
      i := 0;
      var e := hashes[b];
      if e == null {
        return null, false, 0;
      }
      if e.key == k {
        return null, true, 0;
      }
      while e.next != null
        invariant i < |c| && e == c[i] && forall j :: 0 <= j <= i ==> c[j].key != k
        decreases |c| - i
      {
        assert LinkAt(c, i);
        if e.next.key == k {
          return e, true, i + 1;
        }
        e := e.next;
        i := i + 1;
      }
      assert LinkAt(c, i);
      return null, false, 0;
    }

    /** hmp_remove */
    method Remove(k: Key)
      requires Valid()
      modifies this`count, this`view, this`chains, hashes, nodes
      ensures Valid() && view == old(view) - {k}
    {
      hide PowerOfTwo, ChainOk, TableOk, Refines, HasKey, Binds, LaidOut, Values, Table;
      var b := hash(k) % hashes.Length;
      Sizes(hashes, chains, nodes);
      ghost var t := Table(chains, nodes);
      InBucket(hash, t, view, k);
      var prev, found, i := SeekPrev(b, k);
      if found {
        ValuesAre(chains[b]);
        Deletes(hash, t[b], b, |t|, i);
        Rebinds(hash, t, view, k, t[b][..i] + t[b][i + 1..], view - {k});
        Unlink(b, prev, i);
        count := count - 1;
        view := view - {k};
      } else {
        assert view - {k} == view;
      }
    }
  }

  lemma InBucket<V>(h: Key -> nat, t: seq<Chain<V>>, view: map<Key, V>, k: Key)
    requires TableOk(h, t) && Refines(h, t, view)
    ensures var b := h(k) % |t|;
      ChainOk(h, t[b], b, |t|) && Bucket(h, t, k) == t[b] && (k in view <==> HasKey(t[b], k))
  {
  }

  lemma HasNode<V>(c: Nodes<V>, k: Key)
    ensures HasKey(Values(c), k) <==> exists i :: 0 <= i < |c| && c[i].key == k
  {
    hide Values;
    var v := Values(c);
    ValuesAre(c);
    if HasKey(v, k) { var i :| 0 <= i < |v| && v[i].key == k; assert c[i].key == k; }
    if i :| 0 <= i < |c| && c[i].key == k { assert v[i].key == k; }
  }

  lemma Bound<V>(h: Key -> nat, t: seq<Chain<V>>, view: map<Key, V>, k: Key)
    requires TableOk(h, t) && Refines(h, t, view) && k in view
    ensures Binds(t[h(k) % |t|], k, view[k])
  {
  }

  /** The nodes behind a new first one are linked as before. */
  lemma Prepended<V>(head: Entry?<V>, c: Nodes<V>, e: Entry<V>)
    requires Linked(head, c) && e.next == head
    ensures Linked(e, [e] + c) && Values([e] + c) == [Node(e.key, e.value, e.hash)] + Values(c)
  {
    var d := [e] + c;
    assert d[1..] == c;
    forall i | 0 <= i < |d| ensures LinkAt(d, i) {
      if i > 0 { assert LinkAt(c, i - 1); }
    }
  }

  /** The first node of a bucket is nowhere else in two tables that share no key. */
  lemma NoneElse<V>(h: Key -> nat, t: seq<Nodes<V>>, u: seq<Nodes<V>>, nodes: set<Entry<V>>, view: map<Key, V>, i: nat)
    requires Within(t, nodes) && Within(u, nodes) && |t| > 0 && |u| > 0
    requires Split(h, Table(t, nodes), Table(u, nodes), view) && i < |t| && t[i] != []
    ensures t[i][0] !in t[i][1..] && forall b :: 0 <= b < |t| && b != i ==> t[i][0] !in t[b]
    ensures forall b :: 0 <= b < |u| ==> t[i][0] !in u[b]
  {
    OnePlace(h, t, nodes, i, 0);
    var tv, uv, e := Table(t, nodes), Table(u, nodes), t[i][0];
    hide Values, Table, ChainOk, HasKey, Binds, Refines;
    TableIs(t, nodes);
    TableIs(u, nodes);
    ValuesAre(t[i]);
    OnlyHere(h, tv, uv, view, i);
    forall b | 0 <= b < |u| ensures e !in u[b] { NotThere(h, uv, u[b], b, e); }
  }

  lemma NotThere<V>(h: Key -> nat, uv: seq<Chain<V>>, c: Nodes<V>, b: nat, e: Entry<V>)
    requires TableOk(h, uv) && b < |uv| && uv[b] == Values(c) && !HasKey(Bucket(h, uv, e.key), e.key)
    ensures e !in c
  {
    ValuesAre(c);
    forall j | 0 <= j < |c| ensures c[j] != e {
      assert ChainOk(h, uv[b], b, |uv|) && uv[b][j].key == c[j].key;
    }
  }

  lemma Sizes<V>(a: array<Entry?<V>>, chains: seq<Nodes<V>>, nodes: set<Entry<V>>)
    requires LaidOut(a, chains, nodes)
    ensures a.Length == |chains| && Within(chains, nodes)
    ensures forall b :: 0 <= b < |chains| ==> Table(chains, nodes)[b] == Values(chains[b])
  {
    TableIs(chains, nodes);
  }

  /** A bucket that is not empty starts with its first node, and the rest is linked from there. */
  lemma FirstOf<V>(head: Entry?<V>, c: Nodes<V>)
    requires Linked(head, c)
    ensures head == null <==> c == []
    ensures c != [] ==>
      && head == c[0] && Linked(c[0].next, c[1..])
      && Values(c) == [Node(c[0].key, c[0].value, c[0].hash)] + Values(c[1..])
  {
    if c != [] {
      var d := c[1..];
      assert LinkAt(c, 0);
      forall i | 0 <= i < |d| ensures LinkAt(d, i) { assert LinkAt(c, i + 1); }
    }
  }

  /** A new table of null heads has no nodes. */
  lemma AllEmpty<V>(a: array<Entry?<V>>, chains: seq<Nodes<V>>, nodes: set<Entry<V>>)
    requires a.Length == |chains| && forall b :: 0 <= b < |chains| ==> a[b] == null && chains[b] == []
    ensures LaidOut(a, chains, nodes)
    ensures forall b :: 0 <= b < |chains| ==> Table(chains, nodes)[b] == []
  {
    TableIs(chains, nodes);
  }

  lemma NothingYet<V>(h: Key -> nat, t: seq<Chain<V>>, view: map<Key, V>)
    requires view == map[] && forall b :: 0 <= b < |t| ==> t[b] == []
    ensures |t| > 0 ==> TableOk(h, t) && Refines(h, t, view)
  {
  }

  /** The node at `j` points to the one after it, or past the one at `i`. */
  ghost predicate SkipAt<V>(c: Nodes<V>, i: nat, j: nat)
    requires j < |c|
    reads c
  {
    c[j].next == Nth(c, if j + 1 == i then i + 1 else j + 1)
  }

  /** The links around a node that was passed over. */
  lemma Bypassed<V>(head: Entry?<V>, c: Nodes<V>, i: nat)
    requires i < |c| && head == Nth(c, if i == 0 then 1 else 0)
    requires forall j :: 0 <= j < |c| && j != i ==> SkipAt(c, i, j)
    ensures Linked(head, c[..i] + c[i + 1..])
  {
    var d := c[..i] + c[i + 1..];
    NthPast(c, i, 0);
    forall j | 0 <= j < |d| ensures LinkAt(d, j) {
      assert SkipAt(c, i, if j < i then j else j + 1);
      NthPast(c, i, j + 1);
    }
  }

  lemma NthPast<V>(c: Nodes<V>, i: nat, j: nat)
    requires i < |c|
    ensures Nth(c[..i] + c[i + 1..], j) == Nth(c, if j < i then j else j + 1)
  {
  }

  lemma ValuesPast<V>(c: Nodes<V>, i: nat)
    requires i < |c|
    ensures Values(c[..i] + c[i + 1..]) == Values(c)[..i] + Values(c)[i + 1..]
  {
    hide Values;
    ValuesAre(c);
    ValuesAre(c[..i] + c[i + 1..]);
  }
}
