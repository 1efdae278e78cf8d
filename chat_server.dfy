/**
 * The server side of the threaded chat relay: the registry of connected
 * clients, keyed by the peer address until the client has sent its user
 * name and by that name afterwards, and the fan-out of every received
 * message to all other entries.
 *
 * Sockets are opaque ids. A `send` appends a `Delivery` to the server's
 * outbox, or fails when the socket is in the `broken` set given by the
 * caller; a `recv` is a `Recv` value chosen by the environment.
 */
module ChatServer {
  import opened Dicts

  type SocketId = nat

  /** A registry key: an address tuple before registration, a user name after. */
  datatype Key = Addr(host: string, port: int) | Name(user: string)

  /** The record `{'Socket': ..., 'Messages': [...]}` stored under a key. */
  datatype Client = Client(socket: SocketId, messages: seq<string>)

  /** The outcome of one `recv`: the decoded text, or an exception. */
  datatype Recv = Data(text: string) | RecvError

  /** One successful `send` of `text` to the socket of the entry `to`. */
  datatype Delivery = Delivery(to: Key, socket: SocketId, text: string)

  datatype Option<T> = None | Some(value: T)

  type Registry = Dict<Key, Client>

  /** The literal acknowledgement sent to a freshly accepted connection. */
  const Connected: string := "Connected"

  /**
   * The text the broadcast loop holds after prefixing `m` with
   * `user + ": "` for the `n`-th time.
   */
  function Prefixed(user: string, m: string, n: nat): (r: string)
    ensures |r| >= |m|
    ensures n > 0 ==> |r| >= |m| + |user| + 2
  {
    if n == 0 then m else user + ": " + Prefixed(user, m, n - 1)
  }

  /**
   * A prefixed text starts with `user + ": "` (when prefixed at least once)
   * and ends with the original message.
   */
  lemma {:induction false} PrefixedShape(user: string, m: string, n: nat)
    ensures |Prefixed(user, m, n)| >= |m|
    ensures Prefixed(user, m, n)[|Prefixed(user, m, n)| - |m|..] == m
    ensures n > 0 ==> Prefixed(user, m, n)[..|user| + 2] == user + ": "
  {
    if n > 0 {
      PrefixedShape(user, m, n - 1);
      var p := user + ": ";
      var r := Prefixed(user, m, n);
      var rest := Prefixed(user, m, n - 1);
      assert r == p + rest;
      assert |p| == |user| + 2;
      assert r[..|p|] == p;
      assert r[|p| + |rest| - |m|..] == rest[|rest| - |m|..];
    }
  }

  /** Each prefix adds the user name and the two characters `": "`. */
  lemma {:induction false} PrefixedLength(user: string, m: string, n: nat)
    ensures |Prefixed(user, m, n)| == |m| + n * (|user| + 2)
  {
    if n > 0 {
      PrefixedLength(user, m, n - 1);
    }
  }

  /** Every further prefix makes the text strictly longer. */
  lemma {:induction false} PrefixedGrows(user: string, m: string, i: nat, j: nat)
    requires i < j
    ensures |Prefixed(user, m, i)| < |Prefixed(user, m, j)|
  {
    if i + 1 < j {
      PrefixedGrows(user, m, i, j - 1);
    }
  }

  /** Different prefix counts give different texts. */
  lemma PrefixedDistinct(user: string, m: string, i: nat, j: nat)
    requires i != j
    ensures Prefixed(user, m, i) != Prefixed(user, m, j)
  {
    if i < j {
      PrefixedGrows(user, m, i, j);
    } else {
      PrefixedGrows(user, m, j, i);
    }
  }

  /**
   * Deliveries of `m` to the keys `rs` in order, the first carrying `n`
   * prefixes and each later one a prefix more.
   */
  function Deliveries(d: Registry, rs: seq<Key>, user: string, m: string, n: nat): (ds: seq<Delivery>)
    requires forall k :: k in rs ==> k in d.vals
    ensures |ds| == |rs|
  {
    if rs == [] then []
    else [Delivery(rs[0], d.vals[rs[0]].socket, Prefixed(user, m, n))] + Deliveries(d, rs[1..], user, m, n + 1)
  }

  /** The `i`-th of those deliveries, counting from 0. */
  lemma {:induction false} DeliveriesAt(d: Registry, rs: seq<Key>, user: string, m: string, n: nat, i: nat)
    requires forall k :: k in rs ==> k in d.vals
    requires i < |rs|
    ensures Deliveries(d, rs, user, m, n)[i] == Delivery(rs[i], d.vals[rs[i]].socket, Prefixed(user, m, n + i))
  {
    if i > 0 {
      DeliveriesAt(d, rs[1..], user, m, n + 1, i - 1);
    }
  }

  /**
   * What a complete broadcast of `m` from `user` sends: the entries in
   * iteration order with the sender's own key skipped, the `i`-th of them
   * (counting from 0) receiving `m` prefixed `i + 1` times.
   */
  function Fanout(d: Registry, user: string, m: string): (ds: seq<Delivery>)
    requires Valid(d)
    ensures |ds| == |Without(d.order, Name(user))|
  {
    Deliveries(d, Without(d.order, Name(user)), user, m, 1)
  }

  /** The `i`-th delivery of a broadcast, counting from 0. */
  lemma FanoutIndex(d: Registry, user: string, m: string, i: nat)
    requires Valid(d) && i < |Fanout(d, user, m)|
    ensures var rs := Without(d.order, Name(user));
      Fanout(d, user, m)[i] == Delivery(rs[i], d.vals[rs[i]].socket, Prefixed(user, m, i + 1))
  {
    DeliveriesAt(d, Without(d.order, Name(user)), user, m, 1, i);
  }

  /**
   * A broadcast never sends to the sender; each delivery goes to an entry
   * of the registry (address-keyed ones included) on that entry's socket.
   */
  lemma FanoutTargets(d: Registry, user: string, m: string)
    requires Valid(d)
    ensures var ds := Fanout(d, user, m);
      forall i :: 0 <= i < |ds| ==>
        ds[i].to != Name(user) && ds[i].to in d.vals && ds[i].socket == d.vals[ds[i].to].socket
  {
    forall i | 0 <= i < |Fanout(d, user, m)| {
      FanoutIndex(d, user, m, i);
    }
  }

  /** Every entry other than the sender's is sent the message. */
  lemma FanoutCovers(d: Registry, user: string, m: string)
    requires Valid(d)
    ensures var ds := Fanout(d, user, m);
      forall k :: k in d.vals && k != Name(user) ==> exists i :: 0 <= i < |ds| && ds[i].to == k
  {
    var ds := Fanout(d, user, m);
    var rs := Without(d.order, Name(user));
    forall k | k in d.vals && k != Name(user)
      ensures exists i :: 0 <= i < |ds| && ds[i].to == k
    {
      var i :| 0 <= i < |rs| && rs[i] == k;
      FanoutIndex(d, user, m, i);
    }
  }

  /**
   * No entry is sent the message twice, so there is one delivery per entry
   * other than the sender's.
   */
  lemma FanoutOnce(d: Registry, user: string, m: string)
    requires Valid(d)
    ensures var ds := Fanout(d, user, m);
      forall i, j :: 0 <= i < j < |ds| ==> ds[i].to != ds[j].to
    ensures |Fanout(d, user, m)| == if Name(user) in d.vals then |d.vals| - 1 else |d.vals|
  {
    SizeIsLength(d);
    WithoutDistinct(d.order, Name(user));
    forall i | 0 <= i < |Fanout(d, user, m)| {
      FanoutIndex(d, user, m, i);
    }
  }

  /** The text of the `i`-th delivery of a broadcast. */
  lemma FanoutText(d: Registry, user: string, m: string, i: nat)
    requires Valid(d) && i < |Fanout(d, user, m)|
    ensures Fanout(d, user, m)[i].text == Prefixed(user, m, i + 1)
  {
    FanoutIndex(d, user, m, i);
  }

  /**
   * The accumulated prefixes: the recipient at 0-based position `i` gets
   * `i + 1` copies of `user + ": "` in front of the message.
   */
  lemma FanoutPrefixLengths(d: Registry, user: string, m: string)
    requires Valid(d)
    ensures var ds := Fanout(d, user, m);
      forall i :: 0 <= i < |ds| ==> |ds[i].text| == |m| + (i + 1) * (|user| + 2)
  {
    var ds := Fanout(d, user, m);
    forall i | 0 <= i < |ds| ensures |ds[i].text| == |m| + (i + 1) * (|user| + 2) {
      FanoutText(d, user, m, i);
      PrefixedLength(user, m, i + 1);
    }
  }

  /** Only the first recipient gets the singly prefixed `user + ": " + m`. */
  lemma FanoutFirstOnly(d: Registry, user: string, m: string)
    requires Valid(d)
    ensures var ds := Fanout(d, user, m);
      forall i :: 0 <= i < |ds| ==> (ds[i].text == user + ": " + m <==> i == 0)
  {
    var ds := Fanout(d, user, m);
    assert user + ": " + m == Prefixed(user, m, 1);
    if |ds| > 0 {
      FanoutText(d, user, m, 0);
    }
    forall i | 1 <= i < |ds| ensures ds[i].text != user + ": " + m {
      FanoutText(d, user, m, i);
      PrefixedDistinct(user, m, 1, i + 1);
    }
  }

  /** The `i`-th and `j`-th recipients of a broadcast get different texts. */
  lemma FanoutTextsDiffer(d: Registry, user: string, m: string, i: nat, j: nat)
    requires Valid(d) && i < j < |Fanout(d, user, m)|
    ensures Fanout(d, user, m)[i].text != Fanout(d, user, m)[j].text
  {
    FanoutText(d, user, m, i);
    FanoutText(d, user, m, j);
    PrefixedDistinct(user, m, i + 1, j + 1);
  }

  /** No two recipients of one broadcast get the same text. */
  lemma FanoutTextsDistinct(d: Registry, user: string, m: string)
    requires Valid(d)
    ensures var ds := Fanout(d, user, m);
      forall i, j :: 0 <= i < j < |ds| ==> ds[i].text != ds[j].text
  {
    forall i: nat, j: nat | i < j < |Fanout(d, user, m)| {
      FanoutTextsDiffer(d, user, m, i, j);
    }
  }

  /** The scan order of the example below, with alice's own key skipped. */
  lemma ExampleScan()
    ensures Without([Name("alice"), Name("bob"), Name("carol")], Name("alice")) ==
      [Name("bob"), Name("carol")]
  {
  }

  /** The texts of the example below, prefixed once and twice. */
  lemma ExamplePrefixes()
    ensures Prefixed("alice", "hi", 1) == "alice: hi"
    ensures Prefixed("alice", "hi", 2) == "alice: alice: hi"
  {
  }

  /** alice, bob and carol are registered in that order; alice sends "hi". */
  lemma FanoutExample()
    ensures var d := Dict([Name("alice"), Name("bob"), Name("carol")],
                          map[Name("alice") := Client(1, []), Name("bob") := Client(2, []),
                              Name("carol") := Client(3, [])]);
            Valid(d) &&
            Fanout(d, "alice", "hi") ==
              [Delivery(Name("bob"), 2, "alice: hi"), Delivery(Name("carol"), 3, "alice: alice: hi")]
  {
    var d := Dict([Name("alice"), Name("bob"), Name("carol")],
                  map[Name("alice") := Client(1, []), Name("bob") := Client(2, []),
                      Name("carol") := Client(3, [])]);
    ExampleScan();
    ExamplePrefixes();
    var ds := Fanout(d, "alice", "hi");
    assert |ds| == 2;
    assert ds[0] == Delivery(Name("bob"), 2, "alice: hi");
    assert ds[1] == Delivery(Name("carol"), 3, "alice: alice: hi");
  }

  /** Extending a log `pre + s[..n]` by the next element of `s`. */
  lemma AppendNext<T>(pre: seq<T>, s: seq<T>, n: nat, x: T)
    requires n < |s| && s[n] == x
    ensures pre + s[..n] + [x] == pre + s[..n + 1]
  {
  }

  /**
   * When the scan of a broadcast reaches a position `i` holding another
   * key, after `sent` sends: the next delivery goes to that key's socket
   * with one more prefix, and it is the one that fails exactly when that
   * socket is broken.
   */
  lemma FanoutAt(d: Registry, user: string, m: string, broken: set<SocketId>, i: nat, sent: nat)
    requires Valid(d) && i < |d.order| && d.order[i] != Name(user)
    requires sent == |Without(d.order[..i], Name(user))|
    requires sent <= FirstBroken(Fanout(d, user, m), broken)
    ensures var ds := Fanout(d, user, m);
      sent < |ds| &&
      ds[sent] == Delivery(d.order[i], d.vals[d.order[i]].socket, user + ": " + Prefixed(user, m, sent)) &&
      |Without(d.order[..i + 1], Name(user))| == sent + 1 &&
      (ds[sent].socket in broken ==> FirstBroken(ds, broken) == sent) &&
      (ds[sent].socket !in broken ==> sent + 1 <= FirstBroken(ds, broken))
  {
    WithoutStep(d.order, i, Name(user));
    FanoutIndex(d, user, m, sent);
  }

  /**
   * A scan that has passed the whole iteration order without a failed send
   * has made every delivery of the broadcast.
   */
  lemma FanoutDone(d: Registry, user: string, m: string, broken: set<SocketId>, sent: nat)
    requires Valid(d) && sent == |Without(d.order[..|d.order|], Name(user))|
    requires sent <= FirstBroken(Fanout(d, user, m), broken)
    ensures sent == FirstBroken(Fanout(d, user, m), broken) == |Fanout(d, user, m)|
  {
    assert d.order[..|d.order|] == d.order;
  }

  /**
   * The position of the first delivery whose socket is broken, or `|ds|`
   * when every send succeeds: the number of sends before the exception.
   */
  function FirstBroken(ds: seq<Delivery>, broken: set<SocketId>): (k: nat)
    ensures k <= |ds|
    ensures forall i :: 0 <= i < k ==> ds[i].socket !in broken
    ensures k < |ds| ==> ds[k].socket in broken
  {
    if ds == [] || ds[0].socket in broken then 0
    else 1 + FirstBroken(ds[1..], broken)
  }

  /** Every entry other than the sender's has a working socket. */
  ghost predicate PeersWork(d: Registry, user: string, broken: set<SocketId>) {
    forall k :: k in d.vals && k != Name(user) ==> d.vals[k].socket !in broken
  }

  /** `e` has the same entries as `d` under every key other than `key`. */
  ghost predicate SameOthers(d: Registry, e: Registry, key: Key) {
    forall k :: k != key ==> (k in e.vals <==> k in d.vals) && (k in d.vals ==> e.vals[k] == d.vals[k])
  }

  /** Whether the peers' sockets work depends only on the entries other than the sender's. */
  lemma PeersWorkOthers(d: Registry, e: Registry, user: string, broken: set<SocketId>)
    requires SameOthers(d, e, Name(user))
    ensures PeersWork(d, user, broken) <==> PeersWork(e, user, broken)
  {
  }

  /**
   * A broadcast makes every one of its deliveries exactly when no entry
   * other than the sender's has a broken socket.
   */
  lemma BroadcastCompletes(d: Registry, user: string, m: string, broken: set<SocketId>)
    requires Valid(d)
    ensures FirstBroken(Fanout(d, user, m), broken) == |Fanout(d, user, m)| <==> PeersWork(d, user, broken)
  {
    var ds := Fanout(d, user, m);
    FanoutTargets(d, user, m);
    FanoutCovers(d, user, m);
    if FirstBroken(ds, broken) == |ds| {
      forall k | k in d.vals && k != Name(user) ensures d.vals[k].socket !in broken {
        var i :| 0 <= i < |ds| && ds[i].to == k;
      }
    } else {
      var f := FirstBroken(ds, broken);
      assert ds[f].socket in broken && ds[f].to in d.vals && ds[f].to != Name(user);
    }
  }

  /**
   * `client_dic[key]['Messages'].append(text)`: the text goes to the end of
   * the log of `key`; earlier log entries, the socket, every other entry
   * and the iteration order stay as they were.
   */
  function AppendLog(d: Registry, key: Key, text: string): (r: Registry)
    requires Valid(d) && key in d.vals
    ensures Valid(r) && r.order == d.order
    ensures key in r.vals && r.vals[key].socket == d.vals[key].socket
    ensures r.vals[key].messages == d.vals[key].messages + [text]
    ensures |r.vals[key].messages| == |d.vals[key].messages| + 1
    ensures forall j :: j != key ==> (j in r.vals <==> j in d.vals)
    ensures forall j :: j != key && j in d.vals ==> r.vals[j] == d.vals[j]
  {
    var c := d.vals[key];
    Assign(d, key, c.(messages := c.messages + [text]))
  }

  /** The texts of the successful receives, in order. */
  function Texts(rs: seq<Recv>): (ts: seq<string>)
    ensures |ts| <= |rs|
    ensures (forall i :: 0 <= i < |rs| ==> rs[i].Data?) ==> |ts| == |rs|
    ensures (forall i :: 0 <= i < |rs| ==> rs[i].Data?) ==> forall i :: 0 <= i < |ts| ==> ts[i] == rs[i].text
  {
    if rs == [] then []
    else
      var last := rs[|rs| - 1];
      Texts(rs[..|rs| - 1]) + (if last.Data? then [last.text] else [])
  }

  /** Extending the receives by the next one extends their texts by its text, if any. */
  lemma TextsStep(rs: seq<Recv>, i: nat)
    requires i < |rs|
    ensures Texts(rs[..i + 1]) == Texts(rs[..i]) + if rs[i].Data? then [rs[i].text] else []
  {
    assert rs[..i + 1][..i] == rs[..i];
  }

  /** The server's state: the registry `client_dic` and everything sent so far. */
  class Server {
    var clients: Registry
    var outbox: seq<Delivery>

    ghost predicate Valid() reads this {
      Dicts.Valid(clients)
    }

    /** `client_dic = {}`: no client is known and nothing has been sent. */
    constructor ()
      ensures Valid() && clients.vals == map[] && clients.order == [] && outbox == []
    {
      clients := Empty();
      outbox := [];
    }

    /**
     * Accepting a connection from `(host, port)` on socket `sock` stores a
     * record with that socket and an empty log under the address, at the
     * end of the iteration order when the address is new.
     */
    method Accept(host: string, port: int, sock: SocketId)
      requires Valid()
      modifies this`clients
      ensures Valid()
      ensures clients == Assign(old(clients), Addr(host, port), Client(sock, []))
      ensures Addr(host, port) in clients.vals && clients.vals[Addr(host, port)] == Client(sock, [])
      ensures Addr(host, port) !in old(clients.vals) ==>
        clients.order == old(clients.order) + [Addr(host, port)]
      ensures forall k :: k != Addr(host, port) && k in old(clients.vals) ==>
        k in clients.vals && clients.vals[k] == old(clients.vals[k])
    {
      clients := Assign(clients, Addr(host, port), Client(sock, []));
    }

    /**
     * `user_client`: the first text received on the address's socket is the
     * user name, and the record moves from the address key to the name key.
     * A missing address (`KeyError`) or a failed receive raises before the
     * registry is touched.
     */
    method Register(host: string, port: int, received: Recv) returns (user: Option<string>)
      requires Valid()
      modifies this`clients
      ensures Valid()
      ensures Addr(host, port) !in old(clients.vals) || received.RecvError? ==>
        user == None && clients == old(clients)
      ensures Addr(host, port) in old(clients.vals) && received.Data? ==>
        user == Some(received.text) &&
        clients == Rename(old(clients), Addr(host, port), Name(received.text))
      ensures user.Some? ==>
        Addr(host, port) !in clients.vals && Name(user.value) in clients.vals &&
        clients.vals[Name(user.value)] == old(clients.vals[Addr(host, port)])
    {
      var addr := Addr(host, port);
      if addr !in clients.vals || received.RecvError? {
        return None;
      }
      var (rest, record) := Pop(clients, addr);
      clients := Assign(rest, Name(received.text), record);
      user := Some(received.text);
    }

    /**
     * `delete_client`: walk the iteration order and pop the entry keyed by
     * the user name if it is there; otherwise the registry is unchanged.
     */
    method Delete(user: string)
      requires Valid()
      modifies this`clients
      ensures Valid()
      ensures clients == Remove(old(clients), Name(user))
    {
      var i := 0;
      while i < |clients.order|
        invariant 0 <= i <= |clients.order|
        invariant clients == old(clients)
        invariant forall j :: 0 <= j < i ==> clients.order[j] != Name(user)
      {
        if clients.order[i] == Name(user) {
          clients := Pop(clients, Name(user)).0;
          return;
        }
        i := i + 1;
      }
    }

    /**
     * `broadcast_message`: send to every entry other than the sender's, in
     * iteration order, re-prefixing the message before each send. The first
     * failing send aborts the loop (`ok` is false) and nothing later is sent.
     * The registry is not changed.
     */
    method Broadcast(user: string, message: string, broken: set<SocketId>) returns (ok: bool)
      requires Valid()
      modifies this`outbox
      ensures var ds := Fanout(clients, user, message);
        outbox == old(outbox) + ds[..FirstBroken(ds, broken)] &&
        ok == (FirstBroken(ds, broken) == |ds|)
    {
      var d := clients;
      ghost var ds := Fanout(d, user, message);
      var msg := message;
      ghost var sent := 0;
      var i := 0;
      while i < |d.order|
        invariant 0 <= i <= |d.order|
        invariant sent == |Without(d.order[..i], Name(user))|
        invariant msg == Prefixed(user, message, sent)
        invariant sent <= FirstBroken(ds, broken)
        invariant outbox == old(outbox) + ds[..sent]
      {
        var sentOk;
        msg, sent, sentOk := Visit(d, user, message, broken, i, sent, msg, old(outbox));
        if !sentOk {
          return false;
        }
        i := i + 1;
      }
      FanoutDone(d, user, message, broken, sent);
      return true;
    }

    /**
     * One iteration of the loop of `broadcast_message`, at position `i` of
     * the iteration order after `sent` sends: the sender's own key is
     * skipped; any other key gets the text with one more prefix, unless its
     * socket is broken, in which case the loop ends with nothing sent.
     */
    method Visit(d: Registry, user: string, message: string, broken: set<SocketId>,
                 i: nat, ghost sent: nat, msg: string, ghost pre: seq<Delivery>)
      returns (next: string, ghost sentNext: nat, ok: bool)
      requires Dicts.Valid(d) && i < |d.order|
      requires sent == |Without(d.order[..i], Name(user))|
      requires sent <= FirstBroken(Fanout(d, user, message), broken)
      requires msg == Prefixed(user, message, sent)
      requires outbox == pre + Fanout(d, user, message)[..sent]
      modifies this`outbox
      ensures ok ==>
        sentNext == |Without(d.order[..i + 1], Name(user))| &&
        next == Prefixed(user, message, sentNext) &&
        sentNext <= FirstBroken(Fanout(d, user, message), broken) &&
        outbox == pre + Fanout(d, user, message)[..sentNext]
      ensures !ok ==>
        FirstBroken(Fanout(d, user, message), broken) == sent < |Fanout(d, user, message)| &&
        outbox == old(outbox)
    {
      ghost var ds := Fanout(d, user, message);
      var key := d.order[i];
      WithoutStep(d.order, i, Name(user));
      if key == Name(user) {
        return msg, sent, true;
      }
      FanoutAt(d, user, message, broken, i, sent);
      next := user + ": " + msg;
      sentNext := sent + 1;
      var sock := d.vals[key].socket;
      ok := sock !in broken;
      if ok {
        AppendNext(pre, ds, sent, Delivery(key, sock, next));
        outbox := outbox + [Delivery(key, sock, next)];
      }
    }

    /**
     * One pass of the receive loop of `com_client` for `user`: log the
     * received text and broadcast it. A missing entry, a failed receive or a
     * failed send removes the sender's entry and ends the session.
     */
    method HandleMessage(user: string, received: Recv, broken: set<SocketId>) returns (alive: bool)
      requires Valid()
      modifies this
      ensures Valid()
      ensures Name(user) !in old(clients.vals) || received.RecvError? ==>
        !alive && clients == Remove(old(clients), Name(user)) && outbox == old(outbox)
      ensures Name(user) in old(clients.vals) && received.Data? ==>
        var logged := AppendLog(old(clients), Name(user), received.text);
        var ds := Fanout(logged, user, received.text);
        outbox == old(outbox) + ds[..FirstBroken(ds, broken)] &&
        alive == (FirstBroken(ds, broken) == |ds|) &&
        clients == if alive then logged else Remove(logged, Name(user))
      ensures old(outbox) <= outbox
      ensures SameOthers(old(clients), clients, Name(user))
      ensures alive ==> clients.order == old(clients.order)
      ensures !alive ==> clients.order == Without(old(clients.order), Name(user))
      ensures Name(user) in old(clients.vals) && received.Data? ==>
        (alive <==> PeersWork(old(clients), user, broken))
      ensures !alive ==> Name(user) !in clients.vals
      ensures alive ==>
        received.Data? && Name(user) in clients.vals &&
        clients.vals[Name(user)].socket == old(clients.vals[Name(user)].socket) &&
        clients.vals[Name(user)].messages == old(clients.vals[Name(user)].messages) + [received.text]
    {
      if Name(user) !in clients.vals || received.RecvError? {
        Delete(user);
        return false;
      }
      clients := AppendLog(clients, Name(user), received.text);
      BroadcastCompletes(clients, user, received.text, broken);
      alive := Broadcast(user, received.text, broken);
      if !alive {
        Delete(user);
      }
    }

    /**
     * One pass of the receive loop, seen from the sender's own entry: what
     * the loop relies on from `HandleMessage`, with the deliveries left out.
     */
    method ReceiveOnce(user: string, received: Recv, broken: set<SocketId>) returns (alive: bool)
      requires Valid()
      modifies this
      ensures Valid()
      ensures old(outbox) <= outbox
      ensures SameOthers(old(clients), clients, Name(user))
      ensures alive ==> clients.order == old(clients.order)
      ensures !alive ==> clients.order == Without(old(clients.order), Name(user))
      ensures Name(user) in old(clients.vals) && received.Data? ==>
        (alive <==> PeersWork(old(clients), user, broken))
      ensures !alive ==> Name(user) !in clients.vals
      ensures alive ==>
        received.Data? && Name(user) in old(clients.vals) && Name(user) in clients.vals &&
        clients.vals[Name(user)].socket == old(clients.vals[Name(user)].socket) &&
        clients.vals[Name(user)].messages == old(clients.vals[Name(user)].messages) + [received.text]
    {
      alive := HandleMessage(user, received, broken);
    }

    /**
     * The `while True` loop of `com_client` for `user`, over the receives in
     * `inbox`: it stops at the first pass that ends the session. While the
     * session lasts, the socket of the entry is kept and its log gains the
     * received texts in order; once it ends, the entry is gone.
     */
    method ReceiveLoop(user: string, inbox: seq<Recv>, broken: set<SocketId>) returns (alive: bool)
      requires Valid() && Name(user) in clients.vals
      modifies this
      ensures Valid()
      ensures old(outbox) <= outbox
      ensures SameOthers(old(clients), clients, Name(user))
      ensures alive ==> clients.order == old(clients.order)
      ensures !alive ==> clients.order == Without(old(clients.order), Name(user))
      ensures !alive ==> Name(user) !in clients.vals
      ensures (forall j :: 0 <= j < |inbox| ==> inbox[j].Data?) && PeersWork(old(clients), user, broken) ==> alive
      ensures alive ==> forall j :: 0 <= j < |inbox| ==> inbox[j].Data?
      ensures alive && |inbox| > 0 ==> PeersWork(old(clients), user, broken)
      ensures |inbox| == 0 ==> alive
      ensures alive ==>
        Name(user) in clients.vals &&
        clients.vals[Name(user)].socket == old(clients.vals[Name(user)].socket) &&
        clients.vals[Name(user)].messages == old(clients.vals[Name(user)].messages) + Texts(inbox)
    {
      ghost var start := clients;
      var record := clients.vals[Name(user)];
      alive := true;
      var i := 0;
      while i < |inbox| && alive
        invariant 0 <= i <= |inbox|
        invariant Valid()
        invariant old(outbox) <= outbox
        invariant SameOthers(start, clients, Name(user))
        invariant alive ==> clients.order == start.order
        invariant !alive ==> clients.order == Without(start.order, Name(user))
        invariant !alive ==> Name(user) !in clients.vals
        invariant (forall j :: 0 <= j < i ==> inbox[j].Data?) && PeersWork(start, user, broken) ==> alive
        invariant alive ==> forall j :: 0 <= j < i ==> inbox[j].Data?
        invariant alive && i > 0 ==> PeersWork(start, user, broken)
        invariant i == 0 ==> alive
        invariant alive ==>
          Name(user) in clients.vals && clients.vals[Name(user)].socket == record.socket &&
          clients.vals[Name(user)].messages == record.messages + Texts(inbox[..i])
      {
        PeersWorkOthers(start, clients, user, broken);
        alive := ReceiveOnce(user, inbox[i], broken);
        TextsStep(inbox, i);
        i := i + 1;
      }
      if alive {
        assert inbox[..i] == inbox;
      }
    }

    /**
     * `com_client` for the connection accepted from `(host, port)`: send
     * the acknowledgement, register the user name received as `nameRecv`,
     * then run the receive loop. The acknowledgement and the registration
     * run outside the exception handler: when either fails, the address
     * entry stays in the registry.
     */
    method Serve(host: string, port: int, nameRecv: Recv, inbox: seq<Recv>, broken: set<SocketId>)
      returns (user: Option<string>, alive: bool)
      requires Valid()
      modifies this
      ensures Valid()
      ensures Addr(host, port) !in old(clients.vals) ==>
        user == None && clients == old(clients) && outbox == old(outbox)
      ensures Addr(host, port) in old(clients.vals) && old(clients.vals[Addr(host, port)].socket) in broken ==>
        user == None && clients == old(clients) && outbox == old(outbox)
      ensures Addr(host, port) in old(clients.vals) && old(clients.vals[Addr(host, port)].socket) !in broken ==>
        old(outbox) + [Delivery(Addr(host, port), old(clients.vals[Addr(host, port)].socket), Connected)] <= outbox
      ensures nameRecv.RecvError? ==> user == None && clients == old(clients)
      ensures user.None? ==> !alive && clients == old(clients)
      ensures user.None? ==>
        (outbox == old(outbox) ||
         (Addr(host, port) in old(clients.vals) &&
          outbox == old(outbox) + [Delivery(Addr(host, port), old(clients.vals[Addr(host, port)].socket), Connected)]))
      ensures user.Some? ==>
        (Addr(host, port) in old(clients.vals) &&
         var r := Rename(old(clients), Addr(host, port), Name(user.value));
         clients.order == if alive then r.order else Without(r.order, Name(user.value)))
      ensures user.Some? ==> nameRecv == Data(user.value) && Addr(host, port) !in clients.vals
      ensures user.Some? && !alive ==> Name(user.value) !in clients.vals
      ensures (Addr(host, port) in old(clients.vals) && old(clients.vals[Addr(host, port)].socket) !in broken &&
               nameRecv.Data?) ==>
        user == Some(nameRecv.text)
      ensures user.Some? ==> forall k :: k != Addr(host, port) && k != Name(user.value) ==>
        (k in clients.vals <==> k in old(clients.vals)) &&
        (k in old(clients.vals) ==> clients.vals[k] == old(clients.vals[k]))
      ensures (user.Some? && (forall j :: 0 <= j < |inbox| ==> inbox[j].Data?) &&
               (forall k :: k in old(clients.vals) && k != Addr(host, port) && k != Name(user.value) ==>
                  old(clients.vals[k]).socket !in broken)) ==>
        alive
      ensures user.Some? && alive ==> forall j :: 0 <= j < |inbox| ==> inbox[j].Data?
      ensures (user.Some? && alive && |inbox| > 0) ==>
        forall k :: k in old(clients.vals) && k != Addr(host, port) && k != Name(user.value) ==>
          old(clients.vals[k]).socket !in broken
      ensures user.Some? && |inbox| == 0 ==> alive
      ensures user.Some? && alive ==>
        Name(user.value) in clients.vals &&
        clients.vals[Name(user.value)].socket == old(clients.vals[Addr(host, port)].socket) &&
        clients.vals[Name(user.value)].messages ==
          old(clients.vals[Addr(host, port)].messages) + Texts(inbox)
    {
      var addr := Addr(host, port);
      if addr !in clients.vals || clients.vals[addr].socket in broken {
        return None, false;
      }
      outbox := outbox + [Delivery(addr, clients.vals[addr].socket, Connected)];
      user := Register(host, port, nameRecv);
      if user.None? {
        return None, false;
      }
      alive := ReceiveLoop(user.value, inbox, broken);
    }
  }
}
