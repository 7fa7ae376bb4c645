/**
 * The relay server (html/server.js): its copy of the map generator and the
 * two-seat room. Sockets are numbered connections and what the server sends
 * is recorded, in order, in an outbox.
 */
module Relay {
  import opened Wrappers
  import opened Rules
  import opened Oracle
  import opened Maze

  /**
   * generateMap of the server: perimeter, carve from a random even start,
   * weighted wall types, then normalisation, with no dead-end pass and no
   * opening rounds. placed is the list before normalisation: the perimeter
   * and then one wall per blocked cell of the carved grid, in row-major
   * order, each typed by its own draw.
   */
  method GenerateMap(rng: Random) returns (walls: seq<Wall>, ghost placed: seq<Wall>, ghost cells: set<(int, int)>)
    requires rng.Valid()
    modifies rng
    ensures rng.Valid()
    ensures Layout(placed) && RowMajor(placed) && WallCells(placed) == cells
    ensures rng.used >= |placed| - PERIMETER
    ensures forall i | PERIMETER <= i < |placed| ::
      placed[i].wallType == TypeFor(Weighted, rng.draws(rng.used - |placed| + i))
    ensures walls == NormalizedAll(placed)
    ensures ServerMap(walls) && WallCells(walls) == cells
  {
    var perimeter := LayPerimeter();
    var g := NewGrid();
    var rx := rng.Next();
    var ry := rng.Next();
    var startX := EvenStart(rx, (GRID_W / 2) as real);
    var startY := EvenStart(ry, (GRID_H / 2) as real);
    Dfs(g, rng, startX, startY);
    var laid := PlaceWalls(g, perimeter, rng, Weighted);
    placed, cells := laid, Blocked(g);
    NormalizedLayout(laid);
    walls := Normalize(laid);
  }

  /** A map the server hands out: a proper layout in which every non-edge wall is white territory. */
  ghost predicate ServerMap(walls: seq<Wall>)
  {
    Layout(walls) && forall i | 0 <= i < |walls| && NonEdge(walls[i]) :: walls[i].wallType == 2 && walls[i].color == Some(WHITE)
  }

  /** A normalised layout is a server map. */
  lemma NormalizedIsServerMap(walls: seq<Wall>)
    requires Layout(walls)
    ensures ServerMap(NormalizedAll(walls))
  {
    NormalizedLayout(walls);
  }

  datatype Role = Player1 | Player2

  /** A seat of the room: the connection and the role it was given on arrival. */
  datatype Client = Client(id: nat, role: Role)

  /** The kinds of message the server passes on from one player to everyone. */
  datatype Kind = State | Event

  /**
   * A parsed incoming message: its type field and the rest of the object,
   * which the server does not look into.
   */
  datatype Inbound = Relayable(kind: Kind, body: string) | Restart | Other(name: string)

  /** What the server sends. */
  datatype Message =
    | Full
    | Init(role: Role, walls: seq<Wall>)
    | PlayerJoin(joined: Role)
    | Relayed(kind: Kind, body: string, from: Role)
    | Restarted(walls: seq<Wall>)
    | PlayerLeave(left: Role)

  datatype Delivery = Delivery(to: nat, message: Message)

  /** The role a newcomer gets: player1 in an empty room, player2 otherwise. */
  function RoleFor(seated: nat): Role
  {
    if seated == 0 then Player1 else Player2
  }

  /** What a broadcast sends: the message to every seated connection, in seat order. */
  function Deliveries(clients: seq<Client>, m: Message): (d: seq<Delivery>)
    ensures |d| == |clients|
    ensures forall i | 0 <= i < |d| :: d[i] == Delivery(clients[i].id, m)
  {
    if |clients| == 0 then [] else [Delivery(clients[0].id, m)] + Deliveries(clients[1..], m)
  }

  ghost predicate DistinctIds(clients: seq<Client>)
  {
    forall i, j | 0 <= i < j < |clients| :: clients[i].id != clients[j].id
  }

  /** The roster without the clients whose socket is the given one. */
  function Without(clients: seq<Client>, id: nat): (r: seq<Client>)
    ensures |r| <= |clients|
    ensures forall c | c in r :: c in clients && c.id != id
    ensures forall c | c in clients && c.id != id :: c in r
  {
    if |clients| == 0 then []
    else if clients[0].id == id then Without(clients[1..], id)
    else [clients[0]] + Without(clients[1..], id)
  }

  /** Some seat holds the connection id. */
  predicate Seated(clients: seq<Client>, id: nat)
  {
    exists i | 0 <= i < |clients| :: clients[i].id == id
  }

  lemma DistinctTail(clients: seq<Client>)
    requires |clients| > 0 && DistinctIds(clients)
    ensures DistinctIds(clients[1..])
    ensures !Seated(clients[1..], clients[0].id)
  {
    var rest := clients[1..];
    forall i, j | 0 <= i < j < |rest|
      ensures rest[i].id != rest[j].id
    {
      assert rest[i] == clients[i + 1] && rest[j] == clients[j + 1];
    }
  }

  /** Filtering keeps the remaining seats distinct. */
  lemma {:induction false} WithoutDistinct(clients: seq<Client>, id: nat)
    requires DistinctIds(clients)
    ensures DistinctIds(Without(clients, id))
  {
    if |clients| > 0 {
      var rest := clients[1..];
      DistinctTail(clients);
      WithoutDistinct(rest, id);
      if clients[0].id != id {
        var r := Without(clients, id);
        assert r == [clients[0]] + Without(rest, id);
        forall j | 0 < j < |r|
          ensures r[0].id != r[j].id
        {
          assert r[j] in Without(rest, id);
          var k :| 0 <= k < |rest| && rest[k] == r[j];
        }
      }
    }
  }

  /** Filtering out a connection that holds no seat changes nothing. */
  lemma {:induction false} WithoutAbsent(clients: seq<Client>, id: nat)
    requires !Seated(clients, id)
    ensures Without(clients, id) == clients
  {
    if |clients| > 0 {
      var rest := clients[1..];
      forall k | 0 <= k < |rest|
        ensures rest[k].id != id
      {
        assert rest[k] == clients[k + 1];
      }
      WithoutAbsent(rest, id);
      assert clients == [clients[0]] + rest;
    }
  }

  /** Filtering out a seated connection frees exactly one seat. */
  lemma {:induction false} WithoutSeatedCount(clients: seq<Client>, id: nat)
    requires DistinctIds(clients) && Seated(clients, id)
    ensures |Without(clients, id)| == |clients| - 1
  {
    var rest := clients[1..];
    DistinctTail(clients);
    if clients[0].id == id {
      WithoutAbsent(rest, id);
    } else {
      var k :| 0 <= k < |clients| && clients[k].id == id;
      assert rest[k - 1] == clients[k];
      WithoutSeatedCount(rest, id);
    }
  }

  /**
   * The room: who is seated, the map both players share, the generator the
   * server draws maps from, and everything sent so far.
   */
  class Room {
    var clients: seq<Client>
    var currentMap: seq<Wall>
    var outbox: seq<Delivery>
    const rng: Random

    ghost predicate Valid()
      reads this, rng
    {
      |clients| <= 2 && DistinctIds(clients) && rng.Valid() && ServerMap(currentMap)
    }

    /** Server start: an empty room with a freshly generated map. */
    constructor (rng: Random)
      requires rng.Valid()
      modifies rng
      ensures Valid() && this.rng == rng
      ensures clients == [] && outbox == []
    {
      this.rng := rng;
      var walls, placed, cells := GenerateMap(rng);
      currentMap := walls;
      clients := [];
      outbox := [];
    }

    /** broadcast: one delivery per seated connection, in seat order. */
    method Broadcast(m: Message)
      modifies this
      ensures outbox == old(outbox) + Deliveries(clients, m)
      ensures clients == old(clients) && currentMap == old(currentMap)
    {
      var i := 0;
      while i < |clients|
        invariant 0 <= i <= |clients|
        invariant outbox == old(outbox) + Deliveries(clients[..i], m)
        invariant clients == old(clients) && currentMap == old(currentMap)
      {
        assert clients[..i + 1] == clients[..i] + [clients[i]];
        DeliveriesAppend(clients[..i], clients[i], m);
        outbox := outbox + [Delivery(clients[i].id, m)];
        i := i + 1;
      }
      assert clients[..i] == clients;
    }

    /**
     * A new connection. A full room answers it with 'full' and leaves the
     * roster alone. Otherwise it takes the next seat with the role the
     * roster size gives, receives its role and the current map, and then
     * everyone seated, itself included, hears that it joined.
     */
    method Connect(id: nat) returns (admitted: bool)
      requires Valid() && !Seated(clients, id)
      modifies this
      ensures Valid()
      ensures currentMap == old(currentMap)
      ensures admitted == (|old(clients)| < 2)
      ensures !admitted ==> clients == old(clients) && outbox == old(outbox) + [Delivery(id, Full)]
      ensures admitted ==>
        var role := RoleFor(|old(clients)|);
        && clients == old(clients) + [Client(id, role)]
        && outbox == old(outbox) + [Delivery(id, Init(role, currentMap))] + Deliveries(clients, PlayerJoin(role))
    {
      if |clients| >= 2 {
        outbox := outbox + [Delivery(id, Full)];
        return false;
      }
      var role := if |clients| == 0 then Player1 else Player2;
      clients := clients + [Client(id, role)];
      outbox := outbox + [Delivery(id, Init(role, currentMap))];
      Broadcast(PlayerJoin(role));
      return true;
    }

    /**
     * A message on connection id, which holds the seat of the given role
     * (the role it was given when it was admitted). An unparsable one is
     * dropped. A 'state' or 'event' goes to everyone seated, stamped with
     * the sender's role. A 'restart' replaces the map and sends the new one
     * to everyone. Anything else is ignored.
     */
    method OnMessage(id: nat, role: Role, data: Option<Inbound>)
      requires Valid() && Client(id, role) in clients
      modifies this, rng
      ensures Valid()
      ensures clients == old(clients)
      ensures data.None? || data.value.Other? ==> currentMap == old(currentMap) && outbox == old(outbox)
      ensures data.Some? && data.value.Relayable? ==>
        currentMap == old(currentMap)
        && outbox == old(outbox) + Deliveries(clients, Relayed(data.value.kind, data.value.body, role))
      ensures data == Some(Restart) ==> outbox == old(outbox) + Deliveries(clients, Restarted(currentMap))
    {
      if data.Some? {
        match data.value
        case Relayable(kind, body) =>
          Broadcast(Relayed(kind, body, role));
        case Restart =>
          var walls, placed, cells := GenerateMap(rng);
          currentMap := walls;
          Broadcast(Restarted(currentMap));
        case Other(_) =>
      }
    }

    /**
     * The connection id closes; role is the role it was admitted with, so
     * while it is seated its seat carries that role. Its entry goes, everyone
     * still seated hears that role left, and an emptied room gets a new map.
     */
    method OnClose(id: nat, role: Role)
      requires Valid() && (Seated(clients, id) ==> Client(id, role) in clients)
      modifies this, rng
      ensures Valid()
      ensures clients == Without(old(clients), id)
      ensures Seated(old(clients), id) ==> |clients| == |old(clients)| - 1
      ensures !Seated(old(clients), id) ==> clients == old(clients)
      ensures outbox == old(outbox) + Deliveries(clients, PlayerLeave(role))
      ensures |clients| > 0 ==> currentMap == old(currentMap)
    {
      WithoutDistinct(clients, id);
      if Seated(clients, id) {
        WithoutSeatedCount(clients, id);
      } else {
        WithoutAbsent(clients, id);
      }
      clients := Without(clients, id);
      Broadcast(PlayerLeave(role));
      if |clients| == 0 {
        var walls, placed, cells := GenerateMap(rng);
        currentMap := walls;
      }
    }
  }

  /** A broadcast to one more client ends with that client's delivery. */
  lemma {:induction false} DeliveriesAppend(clients: seq<Client>, c: Client, m: Message)
    ensures Deliveries(clients + [c], m) == Deliveries(clients, m) + [Delivery(c.id, m)]
  {
  }

  /**
   * Roles follow the roster size alone: when player1 leaves a full room the
   * remaining player2 stays player2, and the next arrival is player2 too.
   */
  lemma SeatAfterPlayer1Leaves(a: nat, b: nat)
    requires a != b
    ensures var left := Without([Client(a, Player1), Client(b, Player2)], a);
      left == [Client(b, Player2)] && RoleFor(|left|) == Player2
  {
    assert [Client(a, Player1), Client(b, Player2)][1..] == [Client(b, Player2)];
    assert [Client(b, Player2)][1..] == [];
  }
}
