/** custom/ConsistentHashingDemo.java: a consistent-hash ring. Each server
    takes `numberOfReplicas` positions on the ring, hash(serverId + i); a key
    is served by the servers met walking the ring upward from hash(key) and
    wrapping round. The ordered map `hashRing` is kept as its positions in
    ascending order beside the servers at them; the MD5-based `hash` is a
    function given to the constructor. */
module ConsistentHashingModel {

  /** The decimal digits of n, as Java's `String + int` writes them. */
  function Decimal(n: nat): (s: string)
    ensures |s| >= 1
  {
    if n < 10 then [('0' as int + n) as char] else Decimal(n / 10) + [('0' as int + n % 10) as char]
  }

  /** `Server.get`: the stored value, or "" when the key is absent. */
  function Lookup(store: map<string, string>, key: string): string
  {
    if key in store then store[key] else ""
  }

  class Server {
    const serverId: string
    const ipAddress: string
    var store: map<string, string>

    constructor (serverId: string, ipAddress: string)
      ensures this.serverId == serverId && this.ipAddress == ipAddress && store == map[]
    {
      this.serverId := serverId;
      this.ipAddress := ipAddress;
      store := map[];
    }

    method Put(key: string, value: string)
      modifies this
      ensures store == old(store)[key := value]
    {
      store := store[key := value];
    }

    method Get(key: string) returns (v: string)
      ensures key in store ==> v == store[key]
      ensures key !in store ==> v == ""
    {
      v := if key in store then store[key] else "";
    }
  }

  /** A value put is the value got back; other keys keep theirs. */
  lemma GetAfterPut(store: map<string, string>, key: string, value: string, other: string)
    ensures Lookup(store[key := value], key) == value
    ensures other != key ==> Lookup(store[key := value], other) == Lookup(store, other)
  {
  }

  predicate Ascending(keys: seq<int>)
  {
    forall i, j :: 0 <= i < j < |keys| ==> keys[i] < keys[j]
  }

  /** The positions in ascending order with the servers at them make up `ring`. */
  ghost predicate Represents(keys: seq<int>, vals: seq<Server>, ring: map<int, Server>)
  {
    && |keys| == |vals| && Ascending(keys)
    && (forall i :: 0 <= i < |keys| ==> keys[i] in ring && ring[keys[i]] == vals[i])
    && (forall p :: p in ring ==> p in keys)
  }

  /** The distinct servers the ring holds. */
  ghost function OnRing(ring: map<int, Server>): set<Server>
  {
    set p | p in ring :: ring[p]
  }

  /** The position of replica i of server `id`. */
  function Position(hash: string -> int, id: string, i: nat): int
  {
    hash(id + Decimal(i))
  }

  /** The ring after `addServers`: the first n replica positions of the server
      now hold it. */
  ghost function Added(hash: string -> int, ring: map<int, Server>, server: Server, n: int): map<int, Server>
    decreases n
  {
    if n <= 0 then ring else Added(hash, ring, server, n - 1)[Position(hash, server.serverId, n - 1) := server]
  }

  /** The ring after the constructor's loop: each server of the collection
      added in turn, the later ones overwriting shared positions. */
  ghost function AddedAll(hash: string -> int, ring: map<int, Server>, servers: seq<Server>, n: int): map<int, Server>
    decreases |servers|
  {
    if servers == [] then ring
    else Added(hash, AddedAll(hash, ring, servers[..|servers| - 1], n), servers[|servers| - 1], n)
  }

  /** The ring after `removeServers`: each replica position of the server is
      dropped when it still holds that server. */
  ghost function Removed(hash: string -> int, ring: map<int, Server>, server: Server, n: int): map<int, Server>
    decreases n
  {
    if n <= 0 then ring
    else
      var r := Removed(hash, ring, server, n - 1);
      var p := Position(hash, server.serverId, n - 1);
      if p in r && r[p] == server then r - {p} else r
  }

  /** The first n replica positions of a server. */
  ghost predicate IsPosition(hash: string -> int, server: Server, n: int, p: int)
  {
    exists i :: 0 <= i < n && Position(hash, server.serverId, i) == p
  }

  lemma {:induction false} AddedSpec(hash: string -> int, ring: map<int, Server>, server: Server, n: int)
    ensures forall i :: 0 <= i < n ==> Position(hash, server.serverId, i) in Added(hash, ring, server, n)
                                       && Added(hash, ring, server, n)[Position(hash, server.serverId, i)] == server
    ensures forall p :: p in Added(hash, ring, server, n) <==> p in ring || IsPosition(hash, server, n, p)
    ensures forall p :: p in ring && !IsPosition(hash, server, n, p) ==> Added(hash, ring, server, n)[p] == ring[p]
    decreases n
  {
    if n > 0 {
      AddedSpec(hash, ring, server, n - 1);
      var q := Position(hash, server.serverId, n - 1);
      forall p | IsPosition(hash, server, n, p) && !IsPosition(hash, server, n - 1, p) ensures p == q {
        var i :| 0 <= i < n && Position(hash, server.serverId, i) == p;
      }
      forall p | IsPosition(hash, server, n - 1, p) ensures IsPosition(hash, server, n, p) {
        var i :| 0 <= i < n - 1 && Position(hash, server.serverId, i) == p;
      }
      assert IsPosition(hash, server, n, q);
    }
  }

  lemma {:induction false} RemovedSpec(hash: string -> int, ring: map<int, Server>, server: Server, n: int)
    ensures forall p :: p in Removed(hash, ring, server, n) ==> p in ring && Removed(hash, ring, server, n)[p] == ring[p]
    ensures forall i :: 0 <= i < n && Position(hash, server.serverId, i) in Removed(hash, ring, server, n) ==>
              Removed(hash, ring, server, n)[Position(hash, server.serverId, i)] != server
    ensures forall p :: p in ring && !IsPosition(hash, server, n, p) ==> p in Removed(hash, ring, server, n)
    decreases n
  {
    if n > 0 {
      RemovedSpec(hash, ring, server, n - 1);
      forall p | p in ring && !IsPosition(hash, server, n, p) ensures !IsPosition(hash, server, n - 1, p) {
      }
    }
  }

  /** Removing the server from a ring where only `addServers` put it back
      restores the ring. */
  lemma AddRemove(hash: string -> int, ring: map<int, Server>, server: Server, n: int)
    requires forall p :: p in ring ==> !IsPosition(hash, server, n, p)
    ensures Removed(hash, Added(hash, ring, server, n), server, n) == ring
  {
    var a := Added(hash, ring, server, n);
    if n > 0 {
      AddedSpec(hash, ring, server, n);
      RemoveAll(hash, a, server, n, n);
      var r := map p | p in a && !IsPosition(hash, server, n, p) :: a[p];
      forall p ensures p in r <==> p in ring {
      }
      assert forall p :: p in r ==> r[p] == ring[p];
    }
  }

  /** On a ring where all n positions hold the server, removing the first k
      of them drops exactly those. */
  lemma {:induction false} RemoveAll(hash: string -> int, a: map<int, Server>, server: Server, n: int, k: int)
    requires 0 <= k <= n
    requires forall i :: 0 <= i < n ==> Position(hash, server.serverId, i) in a && a[Position(hash, server.serverId, i)] == server
    ensures Removed(hash, a, server, k) == map p | p in a && !IsPosition(hash, server, k, p) :: a[p]
    decreases k
  {
    if k > 0 {
      RemoveAll(hash, a, server, n, k - 1);
      var q := Position(hash, server.serverId, k - 1);
      assert IsPosition(hash, server, k, q);
      forall p ensures IsPosition(hash, server, k, p) <==> IsPosition(hash, server, k - 1, p) || p == q {
        if IsPosition(hash, server, k, p) && p != q {
          var i :| 0 <= i < k && Position(hash, server.serverId, i) == p;
          assert i < k - 1;
        }
        if IsPosition(hash, server, k - 1, p) {
          var i :| 0 <= i < k - 1 && Position(hash, server.serverId, i) == p;
          assert 0 <= i < k;
        }
      }
    }
  }

  /** The servers of s in order of first appearance. */
  function Dedup(s: seq<Server>): (d: seq<Server>)
    decreases |s|
  {
    if s == [] then []
    else
      var d := Dedup(s[..|s| - 1]);
      if s[|s| - 1] in d then d else d + [s[|s| - 1]]
  }

  predicate NoDuplicates(s: seq<Server>)
  {
    forall i, j :: 0 <= i < j < |s| ==> s[i] != s[j]
  }

  function Elems(s: seq<Server>): set<Server>
  {
    set x | x in s
  }

  /** `Dedup` keeps each server of s once: as many entries as distinct servers. */
  lemma {:induction false} DedupSpec(s: seq<Server>)
    ensures forall x :: x in Dedup(s) <==> x in s
    ensures NoDuplicates(Dedup(s))
    ensures |Dedup(s)| == |Elems(s)|
    decreases |s|
  {
    if s != [] {
      var init := s[..|s| - 1];
      var x := s[|s| - 1];
      DedupSpec(init);
      assert s == init + [x];
      assert Elems(s) == Elems(init) + {x};
      if x !in init {
        assert x !in Elems(init);
      }
    }
  }

  lemma DedupMember(s: seq<Server>, x: Server)
    requires x in Dedup(s)
    ensures x in s
  {
    DedupSpec(s);
  }

  /** Deduplicating a longer sequence only appends. */
  lemma {:induction false} DedupPrefix(u: seq<Server>, v: seq<Server>)
    ensures Dedup(u) <= Dedup(u + v)
    decreases |v|
  {
    if v == [] {
      assert u + v == u;
    } else {
      var v' := v[..|v| - 1];
      DedupPrefix(u, v');
      assert (u + v)[..|u + v| - 1] == u + v';
    }
  }

  function Take(s: seq<Server>, n: int): seq<Server>
  {
    if 0 <= n <= |s| then s[..n] else s
  }

  /** The index of the first position at or above h: the start of `tailMap(h, true)`. */
  function Start(keys: seq<int>, h: int): (r: int)
    ensures 0 <= r <= |keys|
    ensures forall i :: 0 <= i < r ==> keys[i] < h
    ensures r < |keys| ==> keys[r] >= h
    decreases |keys|
  {
    if keys == [] || keys[0] >= h then 0 else 1 + Start(keys[1..], h)
  }

  /** The servers `getServerForKey` picks: walking upward from h and then round
      from the lowest position, the first `replicas` distinct servers; when
      `replicas` is not positive, every distinct server from h upward. */
  function Chosen(keys: seq<int>, vals: seq<Server>, h: int, replicas: int): seq<Server>
    requires |keys| == |vals|
  {
    if keys == [] then []
    else
      var tail := vals[Start(keys, h)..];
      if replicas >= 1 then Take(Dedup(tail + vals), replicas) else Dedup(tail)
  }

  /** Chosen servers are on the ring, once each; for positive `replicas` there
      are min(replicas, distinct servers on the ring) of them. */
  lemma ChosenSpec(keys: seq<int>, vals: seq<Server>, h: int, replicas: int)
    requires |keys| == |vals|
    ensures NoDuplicates(Chosen(keys, vals, h, replicas))
    ensures forall x :: x in Chosen(keys, vals, h, replicas) ==> x in vals
    ensures replicas >= 1 ==> |Chosen(keys, vals, h, replicas)| == if replicas <= |Elems(vals)| then replicas else |Elems(vals)|
  {
    if keys != [] {
      var tail := vals[Start(keys, h)..];
      var w := tail + vals;
      forall x | x in tail ensures x in vals {
        var i :| 0 <= i < |tail| && tail[i] == x;
        assert vals[Start(keys, h) + i] == x;
      }
      assert forall x :: x in w ==> x in vals;
      assert Elems(w) == Elems(vals);
      if replicas >= 1 {
        var d := Dedup(w);
        DedupSpec(w);
        forall x | x in Take(d, replicas) ensures x in vals {
          assert x in d;
          assert x in w;
        }
      } else {
        DedupSpec(tail);
        forall x | x in Dedup(tail) ensures x in vals {
          DedupMember(tail, x);
        }
      }
    }
  }

  class ConsistentHashing {
    const numberOfReplicas: int
    const hash: string -> int
    var keys: seq<int>
    var vals: seq<Server>
    ghost var ring: map<int, Server>

    ghost predicate Valid()
      reads this
    {
      Represents(keys, vals, ring)
    }

    constructor (numberOfReplicas: int, servers: seq<Server>, hash: string -> int)
      ensures Valid() && this.numberOfReplicas == numberOfReplicas && this.hash == hash
      ensures ring == AddedAll(hash, map[], servers, numberOfReplicas)
      ensures forall k :: 0 <= k < |servers| ==> forall i :: 0 <= i < numberOfReplicas ==>
                Position(hash, servers[k].serverId, i) in ring
    {
      this.numberOfReplicas := numberOfReplicas;
      this.hash := hash;
      keys := [];
      vals := [];
      ring := map[];
      new;
      var k := 0;
      while k < |servers|
        invariant 0 <= k <= |servers| && Valid()
        invariant ring == AddedAll(hash, map[], servers[..k], numberOfReplicas)
        invariant forall k' :: 0 <= k' < k ==> forall i :: 0 <= i < numberOfReplicas ==>
                    Position(hash, servers[k'].serverId, i) in ring
      {
        ghost var before := ring;
        AddServers(servers[k]);
        AddedSpec(hash, before, servers[k], numberOfReplicas);
        assert servers[..k + 1][..k] == servers[..k];
        k := k + 1;
      }
      assert servers[..k] == servers;
    }

    /** `hashRing.put(h, server)`. */
    method PutPosition(h: int, server: Server)
      requires Valid()
      modifies this
      ensures Valid() && ring == old(ring)[h := server]
    {
      var idx := Start(keys, h);
      if idx < |keys| && keys[idx] == h {
        SetAt(keys, vals, ring, idx, server);
        vals := vals[idx := server];
      } else {
        InsertAt(keys, vals, ring, idx, h, server);
        keys := keys[..idx] + [h] + keys[idx..];
        vals := vals[..idx] + [server] + vals[idx..];
      }
      ring := ring[h := server];
    }

    /** `hashRing.remove(h, server)`: only when h still holds that server. */
    method RemovePosition(h: int, server: Server)
      requires Valid()
      modifies this
      ensures Valid()
      ensures ring == if h in old(ring) && old(ring)[h] == server then old(ring) - {h} else old(ring)
    {
      var idx := Start(keys, h);
      if idx < |keys| && keys[idx] == h && vals[idx] == server {
        DeleteAt(keys, vals, ring, idx);
        keys := keys[..idx] + keys[idx + 1..];
        vals := vals[..idx] + vals[idx + 1..];
        ring := ring - {h};
      } else {
        assert h in ring ==> ring[h] != server by {
          if h in ring {
            var i :| 0 <= i < |keys| && keys[i] == h;
            assert i == idx;
          }
        }
      }
    }

    method AddServers(server: Server)
      requires Valid()
      modifies this
      ensures Valid() && ring == Added(hash, old(ring), server, numberOfReplicas)
    {
      var i := 0;
      while i < numberOfReplicas
        invariant 0 <= i <= if numberOfReplicas < 0 then 0 else numberOfReplicas
        invariant Valid() && ring == Added(hash, old(ring), server, i)
      {
        PutPosition(hash(server.serverId + Decimal(i)), server);
        i := i + 1;
      }
    }

    method RemoveServers(server: Server)
      requires Valid()
      modifies this
      ensures Valid() && ring == Removed(hash, old(ring), server, numberOfReplicas)
    {
      var i := 0;
      while i < numberOfReplicas
        invariant 0 <= i <= if numberOfReplicas < 0 then 0 else numberOfReplicas
        invariant Valid() && ring == Removed(hash, old(ring), server, i)
      {
        RemovePosition(hash(server.serverId + Decimal(i)), server);
        i := i + 1;
      }
    }

    method GetServerForKey(key: string, replicas: int) returns (server: seq<Server>)
      requires Valid()
      ensures server == Chosen(keys, vals, hash(key), replicas)
      ensures NoDuplicates(server) && forall x :: x in server ==> x in OnRing(ring)
      ensures replicas >= 1 ==> |server| == if replicas <= |OnRing(ring)| then replicas else |OnRing(ring)|
    {
      ChosenOnRing(keys, vals, ring, hash(key), replicas);
      if keys == [] {
        return [];
      }
      server := Walk(vals[Start(keys, hash(key))..], vals, replicas);
    }
  }

  /** The two walks of `getServerForKey`: from the key's position to the top
      of the ring, then, while too few servers are collected, round the whole
      ring from its lowest position. */
  method Walk(tail: seq<Server>, all: seq<Server>, replicas: int) returns (server: seq<Server>)
    ensures server == if replicas >= 1 then Take(Dedup(tail + all), replicas) else Dedup(tail)
  {
    var full;
    assert [] + tail == tail;
    server, full := Gather([], [], tail, replicas);
    if full {
      DedupPrefix(tail, all);
    } else if |server| < replicas {
      server, full := Gather(tail, server, all, replicas);
    }
  }

  /** One of the two walks of `getServerForKey`: append each server of s not
      yet collected, stopping as soon as `replicas` are collected. */
  method Gather(ghost seen: seq<Server>, acc: seq<Server>, s: seq<Server>, replicas: int) returns (r: seq<Server>, full: bool)
    requires acc == Dedup(seen) && (replicas >= 1 ==> |acc| < replicas)
    ensures full ==> replicas >= 1 && |r| == replicas && r == Take(Dedup(seen + s), replicas)
    ensures !full ==> r == Dedup(seen + s) && (replicas >= 1 ==> |r| < replicas)
  {
    r := acc;
    var t := 0;
    assert seen + s[..0] == seen;
    while t < |s|
      invariant 0 <= t <= |s| && r == Dedup(seen + s[..t])
      invariant replicas >= 1 ==> |r| < replicas
    {
      assert (seen + s[..t + 1])[..|seen| + t] == seen + s[..t];
      if s[t] !in r {
        r := r + [s[t]];
      }
      if |r| == replicas {
        TakeFromPrefix(seen + s[..t + 1], seen + s, replicas);
        return r, true;
      }
      t := t + 1;
    }
    assert s[..t] == s;
    full := false;
  }

  /** Once the deduplicated prefix u of w has `replicas` servers, it is what
      `Take` picks from w. */
  lemma TakeFromPrefix(u: seq<Server>, w: seq<Server>, replicas: int)
    requires u <= w && |Dedup(u)| == replicas
    ensures Take(Dedup(w), replicas) == Dedup(u)
  {
    DedupPrefix(u, w[|u|..]);
    assert u + w[|u|..] == w;
  }

  lemma ChosenOnRing(keys: seq<int>, vals: seq<Server>, ring: map<int, Server>, h: int, replicas: int)
    requires Represents(keys, vals, ring)
    ensures NoDuplicates(Chosen(keys, vals, h, replicas))
    ensures forall x :: x in Chosen(keys, vals, h, replicas) ==> x in OnRing(ring)
    ensures replicas >= 1 ==> |Chosen(keys, vals, h, replicas)| == if replicas <= |OnRing(ring)| then replicas else |OnRing(ring)|
  {
    ChosenSpec(keys, vals, h, replicas);
    RingValues(keys, vals, ring);
  }

  lemma RingValues(keys: seq<int>, vals: seq<Server>, ring: map<int, Server>)
    requires Represents(keys, vals, ring)
    ensures OnRing(ring) == Elems(vals)
  {
    forall x | x in OnRing(ring) ensures x in Elems(vals) {
      var p :| p in ring && ring[p] == x;
      var i :| 0 <= i < |keys| && keys[i] == p;
    }
    forall x | x in Elems(vals) ensures x in OnRing(ring) {
      var i :| 0 <= i < |vals| && vals[i] == x;
      assert keys[i] in ring;
    }
  }

  lemma SetAt(keys: seq<int>, vals: seq<Server>, ring: map<int, Server>, idx: int, server: Server)
    requires Represents(keys, vals, ring) && 0 <= idx < |keys|
    ensures Represents(keys, vals[idx := server], ring[keys[idx] := server])
  {
  }

  lemma InsertAt(keys: seq<int>, vals: seq<Server>, ring: map<int, Server>, idx: int, h: int, server: Server)
    requires Represents(keys, vals, ring) && 0 <= idx <= |keys|
    requires forall i :: 0 <= i < idx ==> keys[i] < h
    requires idx < |keys| ==> keys[idx] > h
    ensures Represents(keys[..idx] + [h] + keys[idx..], vals[..idx] + [server] + vals[idx..], ring[h := server])
  {
    var keys' := keys[..idx] + [h] + keys[idx..];
    var vals' := vals[..idx] + [server] + vals[idx..];
    InsertAscending(keys, idx, h, keys');
    InsertMapped(keys, vals, ring, idx, h, server, keys', vals');
    InsertCovered(keys, ring, idx, h, server, keys');
  }

  /** Where the i-th element of a list with h spliced in at idx comes from. */
  lemma Spliced<T>(s: seq<T>, idx: int, x: T, s': seq<T>, i: int)
    requires 0 <= idx <= |s| && s' == s[..idx] + [x] + s[idx..] && 0 <= i < |s'|
    ensures s'[i] == if i < idx then s[i] else if i == idx then x else s[i - 1]
  {
  }

  lemma InsertAscending(keys: seq<int>, idx: int, h: int, keys': seq<int>)
    requires Ascending(keys) && 0 <= idx <= |keys|
    requires forall i :: 0 <= i < idx ==> keys[i] < h
    requires idx < |keys| ==> keys[idx] > h
    requires keys' == keys[..idx] + [h] + keys[idx..]
    ensures Ascending(keys')
  {
    forall i, j | 0 <= i < j < |keys'| ensures keys'[i] < keys'[j] {
      Spliced(keys, idx, h, keys', i);
      Spliced(keys, idx, h, keys', j);
      if i < idx && j > idx {
        assert keys[i] < h < keys[idx] <= keys[j - 1];
      } else if i == idx && j > idx + 1 {
        assert keys[idx] < keys[j - 1];
      }
    }
  }

  lemma InsertMapped(keys: seq<int>, vals: seq<Server>, ring: map<int, Server>, idx: int, h: int, server: Server,
                     keys': seq<int>, vals': seq<Server>)
    requires Represents(keys, vals, ring) && 0 <= idx <= |keys|
    requires forall i :: 0 <= i < idx ==> keys[i] < h
    requires idx < |keys| ==> keys[idx] > h
    requires keys' == keys[..idx] + [h] + keys[idx..] && vals' == vals[..idx] + [server] + vals[idx..]
    ensures |keys'| == |vals'|
    ensures forall i :: 0 <= i < |keys'| ==> keys'[i] in ring[h := server] && ring[h := server][keys'[i]] == vals'[i]
  {
    forall i | 0 <= i < |keys'| ensures keys'[i] in ring[h := server] && ring[h := server][keys'[i]] == vals'[i] {
      Spliced(keys, idx, h, keys', i);
      Spliced(vals, idx, server, vals', i);
      if i > idx {
        assert keys[idx] < keys[i - 1] || i - 1 == idx;
      }
    }
  }

  lemma InsertCovered(keys: seq<int>, ring: map<int, Server>, idx: int, h: int, server: Server, keys': seq<int>)
    requires forall p :: p in ring ==> p in keys
    requires 0 <= idx <= |keys| && keys' == keys[..idx] + [h] + keys[idx..]
    ensures forall p :: p in ring[h := server] ==> p in keys'
  {
    forall p | p in ring[h := server] ensures p in keys' {
      if p == h {
        assert keys'[idx] == h;
      } else {
        var i :| 0 <= i < |keys| && keys[i] == p;
        if i < idx {
          assert keys'[i] == p;
        } else {
          assert keys'[i + 1] == p;
        }
      }
    }
  }

  lemma DeleteAt(keys: seq<int>, vals: seq<Server>, ring: map<int, Server>, idx: int)
    requires Represents(keys, vals, ring) && 0 <= idx < |keys|
    ensures Represents(keys[..idx] + keys[idx + 1..], vals[..idx] + vals[idx + 1..], ring - {keys[idx]})
  {
    var keys' := keys[..idx] + keys[idx + 1..];
    var vals' := vals[..idx] + vals[idx + 1..];
    DeleteAscending(keys, idx, keys');
    DeleteMapped(keys, vals, ring, idx, keys', vals');
    DeleteCovered(keys, ring, idx, keys');
  }

  /** Where the i-th element of a list with position idx cut out comes from. */
  lemma Cut<T>(s: seq<T>, idx: int, s': seq<T>, i: int)
    requires 0 <= idx < |s| && s' == s[..idx] + s[idx + 1..] && 0 <= i < |s'|
    ensures s'[i] == if i < idx then s[i] else s[i + 1]
  {
  }

  lemma DeleteAscending(keys: seq<int>, idx: int, keys': seq<int>)
    requires Ascending(keys) && 0 <= idx < |keys| && keys' == keys[..idx] + keys[idx + 1..]
    ensures Ascending(keys')
  {
    forall i, j | 0 <= i < j < |keys'| ensures keys'[i] < keys'[j] {
      Cut(keys, idx, keys', i);
      Cut(keys, idx, keys', j);
    }
  }

  lemma DeleteMapped(keys: seq<int>, vals: seq<Server>, ring: map<int, Server>, idx: int,
                     keys': seq<int>, vals': seq<Server>)
    requires Represents(keys, vals, ring) && 0 <= idx < |keys|
    requires keys' == keys[..idx] + keys[idx + 1..] && vals' == vals[..idx] + vals[idx + 1..]
    ensures |keys'| == |vals'|
    ensures forall i :: 0 <= i < |keys'| ==> keys'[i] in ring - {keys[idx]} && ring[keys'[i]] == vals'[i]
  {
    forall i | 0 <= i < |keys'| ensures keys'[i] in ring - {keys[idx]} && ring[keys'[i]] == vals'[i] {
      Cut(keys, idx, keys', i);
      Cut(vals, idx, vals', i);
      if i < idx {
        assert keys[i] < keys[idx];
      } else {
        assert keys[idx] < keys[i + 1];
      }
    }
  }

  lemma DeleteCovered(keys: seq<int>, ring: map<int, Server>, idx: int, keys': seq<int>)
    requires forall p :: p in ring ==> p in keys
    requires 0 <= idx < |keys| && keys' == keys[..idx] + keys[idx + 1..]
    ensures forall p :: p in ring - {keys[idx]} ==> p in keys'
  {
    forall p | p in ring - {keys[idx]} ensures p in keys' {
      var i :| 0 <= i < |keys| && keys[i] == p;
      if i < idx {
        assert keys'[i] == p;
      } else {
        assert keys'[i - 1] == p;
      }
    }
  }
}
