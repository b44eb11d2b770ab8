/**
 The connections of a client: mnhttpc_t keeps one per address in a hash table that
 compares nothing but the hashes, and each connection remembers its own hash once
 it has been computed.  The two hash functions of the library are parameters.
 */
module ConnectionPool {
  import opened Bytes
  import opened Uri
  import opened RequestTarget

  /** bytes_hash, and fasthash(seed, value). */
  datatype Hasher = Hasher(ofBytes: bytes -> nat, mix: (nat, nat) -> nat)

  datatype Address = Address(proxyHost: Option<bytes>, proxyPort: Option<bytes>, host: bytes, port: bytes)

  /** The seed that the proxy leaves for host and port. */
  function ProxySeed(h: Hasher, a: Address): nat {
    var h0 := if a.proxyHost.Some? then h.ofBytes(a.proxyHost.value) else 0;
    if a.proxyPort.Some? then h.mix(h0, h.ofBytes(a.proxyPort.value)) else h0
  }

  /** The hash of an address, from its four fields in turn. */
  function HashOf(h: Hasher, a: Address): nat {
    h.mix(h.mix(ProxySeed(h, a), h.ofBytes(a.host)), h.ofBytes(a.port))
  }

  // ------------------------------------------------------------------ what the hash tells apart

  /** The values that mixing these texts can reach in n steps, from 0 or from a text. */
  function Reached(h: Hasher, texts: set<bytes>, n: nat): set<nat> {
    if n == 0 then {0} + set t | t in texts :: h.ofBytes(t)
    else
      var seeds := Reached(h, texts, n - 1);
      seeds + set v, t | v in seeds && t in texts :: h.mix(v, h.ofBytes(t))
  }

  /** The two hash functions do not collide on these texts, nor on what two steps of mixing make of them. */
  predicate Perfect(h: Hasher, texts: set<bytes>) {
    var seeds := Reached(h, texts, 2);
    && (forall t :: t in texts ==> h.ofBytes(t) != 0)
    && (forall t, u :: t in texts && u in texts && h.ofBytes(t) == h.ofBytes(u) ==> t == u)
    && (forall v, t :: v in seeds && t in texts ==> h.mix(v, h.ofBytes(t)) != 0)
    && (forall v, t, u :: v in seeds && t in texts && u in texts ==> h.mix(v, h.ofBytes(t)) != h.ofBytes(u))
    && (forall v, t, w, u :: v in seeds && t in texts && w in seeds && u in texts ==>
          (h.mix(v, h.ofBytes(t)) == h.mix(w, h.ofBytes(u)) ==> v == w && t == u))
  }

  predicate Among(x: Option<bytes>, texts: set<bytes>) {
    x.Some? ==> x.value in texts
  }

  /** The fields of the address are among the texts. */
  predicate AddressOf(a: Address, texts: set<bytes>) {
    Among(a.proxyHost, texts) && Among(a.proxyPort, texts) && a.host in texts && a.port in texts
  }

  lemma {:induction false} SeedsReached(h: Hasher, texts: set<bytes>, a: Address)
    requires AddressOf(a, texts)
    ensures (if a.proxyHost.Some? then h.ofBytes(a.proxyHost.value) else 0) in Reached(h, texts, 0)
    ensures Reached(h, texts, 0) <= Reached(h, texts, 1) <= Reached(h, texts, 2)
    ensures ProxySeed(h, a) in Reached(h, texts, 1)
    ensures h.mix(ProxySeed(h, a), h.ofBytes(a.host)) in Reached(h, texts, 2)
  {
  }

  lemma {:induction false} ProxyTold(h: Hasher, texts: set<bytes>, a: Address, b: Address)
    requires Perfect(h, texts) && AddressOf(a, texts) && AddressOf(b, texts) && ProxySeed(h, a) == ProxySeed(h, b)
    ensures a.proxyHost == b.proxyHost && a.proxyPort == b.proxyPort
  {
    hide Reached;
    SeedsReached(h, texts, a);
    SeedsReached(h, texts, b);
  }

  /** Where the two hash functions do not collide, the hash of an address depends on all four fields. */
  lemma {:induction false} HashTells(h: Hasher, texts: set<bytes>, a: Address, b: Address)
    requires Perfect(h, texts) && AddressOf(a, texts) && AddressOf(b, texts)
    ensures HashOf(h, a) == HashOf(h, b) ==> a == b
  {
    hide Reached, ProxySeed;
    SeedsReached(h, texts, a);
    SeedsReached(h, texts, b);
    if HashOf(h, a) == HashOf(h, b) {
      ProxyTold(h, texts, a, b);
    }
  }

  // ------------------------------------------------------------------------------- the table

  class Connection {
    const address: Address
    var hash: nat

    /** mnhttpc_connection_new; also the template that a lookup compares with. */
    constructor (a: Address)
      ensures address == a && hash == 0
    {
      address, hash := a, 0;
    }

    /** What is remembered is what would be computed. */
    ghost predicate Remembers(h: Hasher)
      reads this
    {
      hash == 0 || hash == HashOf(h, address)
    }

    /** mnhttpc_connection_hash. */
    method Hash(h: Hasher) returns (v: nat)
      requires Remembers(h)
      modifies this`hash
      ensures v == HashOf(h, address) && Remembers(h)
    {
      if hash == 0 {
        if address.proxyHost.Some? {
          hash := h.ofBytes(address.proxyHost.value);
        }
        if address.proxyPort.Some? {
          hash := h.mix(hash, h.ofBytes(address.proxyPort.value));
        }
        hash := h.mix(hash, h.ofBytes(address.host));
        hash := h.mix(hash, h.ofBytes(address.port));
      }
      v := hash;
    }

    /** mnhttpc_connection_cmp: equal means equal hashes. */
    static method Same(h: Hasher, a: Connection, b: Connection) returns (same: bool)
      requires a.Remembers(h) && b.Remembers(h)
      modifies a`hash, b`hash
      ensures a.Remembers(h) && b.Remembers(h) && same == (HashOf(h, a.address) == HashOf(h, b.address))
    {
      var ha := a.Hash(h);
      var hb := b.Hash(h);
      same := ha == hb;
    }
  }

  class Client {
    var connections: seq<Connection>

    constructor ()
      ensures connections == []
    {
      connections := [];
    }

    /** Every memory is right, and no two entries have the same hash. */
    ghost predicate Valid(h: Hasher)
      reads this, connections
    {
      && (forall c :: c in connections ==> c.Remembers(h))
      && (forall i, j :: 0 <= i < j < |connections| ==>
            HashOf(h, connections[i].address) != HashOf(h, connections[j].address))
    }

    /** hash_get_item. */
    method Lookup(h: Hasher, a: Address) returns (found: Connection?)
      requires Valid(h)
      modifies connections`hash
      ensures Valid(h)
      ensures found != null ==> found in connections && HashOf(h, found.address) == HashOf(h, a)
      ensures found == null ==> forall c :: c in connections ==> HashOf(h, c.address) != HashOf(h, a)
    {
      var template := new Connection(a);
      var i := 0;
      while i < |connections|
        invariant i <= |connections| && Valid(h) && template.Remembers(h) && template !in connections
        invariant forall k :: 0 <= k < i ==> HashOf(h, connections[k].address) != HashOf(h, a)
      {
        var same := Connection.Same(h, connections[i], template);
        if same {
          return connections[i];
        }
        i := i + 1;
      }
      return null;
    }
  
    /** No connection in the table has the hash of a without having its address. */
    ghost predicate NoCollision(h: Hasher, a: Address)
      reads this
    {
      forall c :: c in connections && HashOf(h, c.address) == HashOf(h, a) ==> c.address == a
    }

    /**
     The lookup of mnhttpc_new: the connection found or made has the address asked
     for if and only if no connection in the table collides with it, so this is when
     the two assertions on host and port hold.
     */
    method Open(h: Hasher, a: Address) returns (conn: Connection)
      requires Valid(h)
      modifies this`connections, connections`hash
      ensures Valid(h) && conn in connections
      ensures conn.address == a <==> old(NoCollision(h, a))
      ensures connections == old(connections) || (connections == old(connections) + [conn] && fresh(conn))
      ensures HashOf(h, conn.address) == HashOf(h, a)
    {
      var hit := Lookup(h, a);
      if hit == null {
        conn := new Connection(a);
        connections := connections + [conn];
      } else {
        conn := hit;
        assert HashOf(h, hit.address) == HashOf(h, a);
        OnlyHit(h, hit);
      }
    }

    lemma {:induction false} OnlyHit(h: Hasher, hit: Connection)
      requires Valid(h) && hit in connections
      ensures forall c :: c in connections && HashOf(h, c.address) == HashOf(h, hit.address) ==> c == hit
    {
      forall c | c in connections && HashOf(h, c.address) == HashOf(h, hit.address)
        ensures c == hit
      {
        var i :| 0 <= i < |connections| && connections[i] == c;
        var j :| 0 <= j < |connections| && connections[j] == hit;
      }
    }
  }

  /** The hash tells these addresses apart. */
  predicate CollisionFree(h: Hasher, addresses: seq<Address>) {
    forall a, b :: a in addresses && b in addresses && HashOf(h, a) == HashOf(h, b) ==> a == b
  }

  /**
   Any number of requests from a new client: under a hash that tells their addresses
   apart, every request is bound to a connection with its own address, and two
   requests share a connection exactly when they have the same address.
   */
  method OpenAll(h: Hasher, addresses: seq<Address>) returns (conns: seq<Connection>)
    requires CollisionFree(h, addresses)
    ensures |conns| == |addresses|
    ensures forall i :: 0 <= i < |conns| ==> conns[i].address == addresses[i]
    ensures forall i, j :: 0 <= i < |conns| && 0 <= j < |conns| ==>
              (conns[i] == conns[j] <==> addresses[i] == addresses[j])
  {
    hide HashOf;
    var cli := new Client();
    conns := [];
    while |conns| < |addresses|
      invariant |conns| <= |addresses| && fresh(cli) && cli.Valid(h)
      invariant forall k :: 0 <= k < |cli.connections| ==> fresh(cli.connections[k])
      invariant forall c :: c in cli.connections ==> c.address in addresses
      invariant forall i :: 0 <= i < |conns| ==> conns[i] in cli.connections && conns[i].address == addresses[i]
    {
      var a := addresses[|conns|];
      assert a in addresses;
      assert cli.NoCollision(h, a);
      var conn := cli.Open(h, a);
      conns := conns + [conn];
    }
    forall i, j | 0 <= i < |conns| && 0 <= j < |conns| && addresses[i] == addresses[j]
      ensures conns[i] == conns[j]
    {
      cli.OnlyHit(h, conns[j]);
    }
  }

  /**
   The same, from the hash functions: if they do not collide on the fields of the
   addresses, requests share a connection exactly when host, port and proxy agree.
   */
  method OpenApart(h: Hasher, addresses: seq<Address>, ghost texts: set<bytes>) returns (conns: seq<Connection>)
    requires Perfect(h, texts) && forall a :: a in addresses ==> AddressOf(a, texts)
    ensures |conns| == |addresses|
    ensures forall i :: 0 <= i < |conns| ==> conns[i].address == addresses[i]
    ensures forall i, j :: 0 <= i < |conns| && 0 <= j < |conns| ==>
              (conns[i] == conns[j] <==> addresses[i] == addresses[j])
  {
    hide HashOf, Perfect, AddressOf;
    forall a, b | a in addresses && b in addresses && HashOf(h, a) == HashOf(h, b)
      ensures a == b
    {
      HashTells(h, texts, a, b);
    }
    conns := OpenAll(h, addresses);
  }

  /**
   mnhttpc_new: a request is refused exactly when its URI has no host, no port even
   after defaulting, or no relative part; otherwise it is bound to a connection.
   */
  method NewRequest(h: Hasher, cli: Client, proxyHost: Option<bytes>, proxyPort: Option<bytes>, uri: bytes)
    returns (conn: Connection?, ghost p: Parts)
    requires cli.Valid(h)
    modifies cli`connections, cli.connections`hash
    ensures cli.Valid(h) && IsSplit(uri, p)
    ensures conn == null <==>
            || p.authority.host == [] || DefaultPort(p.scheme, p.authority.port).None?
            || p.tail.None? || p.scheme == SERIAL
    ensures conn == null ==> cli.connections == old(cli.connections)
    ensures conn != null ==>
              && conn in cli.connections
              && var port := DefaultPort(p.scheme, p.authority.port).value;
                 var a := Address(proxyHost, proxyPort, p.authority.host, port);
                 (conn.address == a <==> old(cli.NoCollision(h, a)))
  {
    hide HashOf, IsSplit;
    var u := new HttpUri();
    p := u.Parse(uri);
    TailHasPath(uri, p);
    if NullOrEmpty(u.host) || NullOrEmpty(u.port) || NullOrEmpty(u.relative) || NullOrEmpty(u.path) {
      return null, p;
    }
    conn := cli.Open(h, Address(proxyHost, proxyPort, u.host.value, u.port.value));
  }

  lemma {:induction false} TailHasPath(s: bytes, p: Parts)
    requires IsSplit(s, p)
    ensures p.tail.Some? ==> p.tail.value.path != [] && TailText(p.tail.value) != []
  {
  }
}
