/** The chat rooms of 5/3/index.js: rooms are subjects whose observer list
    never holds the same user twice, users are observers that ignore their own
    messages, and `ChatMediator` keeps the registry of users and rooms. Console
    output is modelled as the sequence of messages delivered. */
module ChatRooms {
  import opened Wrappers
  import opened Seqs

  /** The object `sendMessage` passes to `notify`. */
  datatype ChatMessage = ChatMessage(message: string, sender: string, room: string)

  /** One message shown to one user by `User.update`. */
  datatype Delivery = Delivery(receiver: ChatUser, data: ChatMessage)

  class ChatUser {
    const name: string
    var mediator: ChatMediator?

    constructor (name: string)
      ensures this.name == name && mediator == null
    {
      this.name := name;
      mediator := null;
    }

    method SetMediator(m: ChatMediator?)
      modifies this
      ensures mediator == m
    {
      mediator := m;
    }

    /** `update(data)`: shown unless this user sent it. */
    function Update(data: ChatMessage): (r: Option<Delivery>)
      ensures r.Some? <==> data.sender != name
      ensures r.Some? ==> r.value == Delivery(this, data)
    {
      if data.sender != name then Some(Delivery(this, data)) else None
    }

    /** `joinRoom(roomName)`, through the mediator. */
    method JoinRoom(roomName: string)
      requires mediator != null && mediator.Valid()
      modifies mediator.RoomFrame(roomName)
      ensures mediator.Valid()
      ensures roomName in mediator.rooms ==>
        mediator.rooms[roomName].observers == Attached(old(mediator.rooms[roomName].observers), this)
    {
      mediator.JoinRoom(this, roomName);
    }

    /** `leaveRoom(roomName)`, through the mediator. */
    method LeaveRoom(roomName: string)
      requires mediator != null && mediator.Valid()
      modifies mediator.RoomFrame(roomName)
      ensures mediator.Valid()
      ensures roomName in mediator.rooms ==>
        mediator.rooms[roomName].observers == RemoveFirst(old(mediator.rooms[roomName].observers), this)
    {
      mediator.LeaveRoom(this, roomName);
    }

    /** `sendMessage(message, roomName)`, with this user's name as sender. */
    method SendMessage(message: string, roomName: string) returns (out: seq<Delivery>)
      requires mediator != null && mediator.Valid()
      ensures out == mediator.Sent(message, name, roomName)
    {
      out := mediator.SendMessage(message, name, roomName);
    }
  }

  /** `attach(o)`: appended unless already present. */
  function Attached(observers: seq<ChatUser>, o: ChatUser): seq<ChatUser>
  {
    if o in observers then observers else observers + [o]
  }

  /** What `notify(data)` shows, observer by observer, in attachment order. */
  function Deliveries(observers: seq<ChatUser>, data: ChatMessage): (r: seq<Delivery>)
    ensures |r| <= |observers|
    decreases |observers|
  {
    if |observers| == 0 then []
    else
      var first := if observers[0].name != data.sender then [Delivery(observers[0], data)] else [];
      first + Deliveries(observers[1..], data)
  }

  /** Exactly the members other than the sender see the message, each with the
      message as sent. */
  lemma {:induction false} DeliveriesSpec(observers: seq<ChatUser>, data: ChatMessage)
    ensures forall d :: d in Deliveries(observers, data) ==>
      d.receiver in observers && d.receiver.name != data.sender && d.data == data
    ensures forall o :: o in observers && o.name != data.sender ==> Delivery(o, data) in Deliveries(observers, data)
    decreases |observers|
  {
    if |observers| > 0 {
      DeliveriesSpec(observers[1..], data);
      assert forall o :: o in observers ==> o == observers[0] || o in observers[1..];
    }
  }

  /** Without duplicates in the room, nobody sees a message twice. */
  lemma {:induction false} DeliveriesOnce(observers: seq<ChatUser>, data: ChatMessage)
    requires NoDups(observers)
    ensures forall i, j :: 0 <= i < j < |Deliveries(observers, data)| ==>
      Deliveries(observers, data)[i].receiver != Deliveries(observers, data)[j].receiver
    decreases |observers|
  {
    if |observers| > 0 {
      var rest := Deliveries(observers[1..], data);
      DeliveriesOnce(observers[1..], data);
      DeliveriesSpec(observers[1..], data);
      assert observers[0] !in observers[1..];
      if observers[0].name != data.sender {
        assert Deliveries(observers, data) == [Delivery(observers[0], data)] + rest;
        assert forall d :: d in rest ==> d.receiver != observers[0];
      }
    }
  }

  class Room {
    const name: string
    var observers: seq<ChatUser>

    constructor (name: string)
      ensures this.name == name && observers == []
    {
      this.name := name;
      observers := [];
    }

    /** `attach(observer)`: only if not already present, so the list never
        holds duplicates. */
    method Attach(o: ChatUser)
      requires NoDups(observers)
      modifies this
      ensures observers == Attached(old(observers), o)
      ensures NoDups(observers) && o in observers
    {
      if o !in observers {
        AppendNoDups(observers, o);
        observers := observers + [o];
      }
    }

    /** `detach(observer)`: the first occurrence goes, the rest keep their order. */
    method Detach(o: ChatUser)
      requires NoDups(observers)
      modifies this
      ensures observers == RemoveFirst(old(observers), o)
      ensures NoDups(observers) && o !in observers
    {
      var index := IndexOf(observers, o);
      RemoveFirstNoDups(observers, o);
      if index.Some? {
        observers := observers[..index.value] + observers[index.value + 1..];
      }
    }

    /** `notify(data)`: `update` on each observer once, in attachment order. */
    method Notify(data: ChatMessage) returns (out: seq<Delivery>)
      ensures out == Deliveries(observers, data)
    {
      out := [];
      var i := 0;
      while i < |observers|
        invariant 0 <= i <= |observers|
        invariant out + Deliveries(observers[i..], data) == Deliveries(observers, data)
      {
        var shown := observers[i].Update(data);
        assert observers[i..][1..] == observers[i + 1..];
        if shown.Some? {
          out := out + [shown.value];
        }
        i := i + 1;
      }
    }
  }

  class ChatMediator {
    var rooms: map<string, Room>
    var users: map<string, ChatUser>

    /** Each room is filed under its own name and has no duplicate members. */
    ghost predicate Valid()
      reads this, rooms.Values
    {
      forall k | k in rooms :: rooms[k].name == k && NoDups(rooms[k].observers)
    }

    /** The room a join or leave on `roomName` may change. */
    function RoomFrame(roomName: string): set<Room>
      reads this
    {
      if roomName in rooms then {rooms[roomName]} else {}
    }

    constructor ()
      ensures Valid() && rooms == map[] && users == map[]
    {
      rooms := map[];
      users := map[];
    }

    /** `registerUser(user)`: the name maps to this user, replacing an earlier
        one with that name, and the user gets this mediator. */
    method RegisterUser(user: ChatUser)
      requires Valid()
      modifies this, user
      ensures Valid()
      ensures users == old(users)[user.name := user] && rooms == old(rooms)
      ensures user.mediator == this
    {
      users := users[user.name := user];
      user.SetMediator(this);
    }

    /** `createRoom(roomName)`: idempotent; an existing room is returned as it
        is, never replaced. */
    method CreateRoom(roomName: string) returns (room: Room)
      requires Valid()
      modifies this
      ensures Valid() && users == old(users)
      ensures roomName in old(rooms) ==> room == old(rooms)[roomName] && rooms == old(rooms)
      ensures roomName !in old(rooms) ==>
        fresh(room) && room.name == roomName && room.observers == [] && rooms == old(rooms)[roomName := room]
    {
      if roomName !in rooms {
        room := new Room(roomName);
        rooms := rooms[roomName := room];
        return;
      }
      room := rooms[roomName];
    }

    /** `getRoom(roomName)`. */
    method GetRoom(roomName: string) returns (room: Option<Room>)
      ensures room.Some? <==> roomName in rooms
      ensures room.Some? ==> room.value == rooms[roomName]
    {
      room := if roomName in rooms then Some(rooms[roomName]) else None;
    }

    /** `joinRoom(user, roomName)`: a missing room changes nothing. */
    method JoinRoom(user: ChatUser, roomName: string)
      requires Valid()
      modifies RoomFrame(roomName)
      ensures Valid()
      ensures roomName in rooms ==> rooms[roomName].observers == Attached(old(rooms[roomName].observers), user)
    {
      if roomName in rooms {
        var room := rooms[roomName];
        room.Attach(user);
      }
    }

    /** `leaveRoom(user, roomName)`: a missing room changes nothing. */
    method LeaveRoom(user: ChatUser, roomName: string)
      requires Valid()
      modifies RoomFrame(roomName)
      ensures Valid()
      ensures roomName in rooms ==> rooms[roomName].observers == RemoveFirst(old(rooms[roomName].observers), user)
    {
      if roomName in rooms {
        var room := rooms[roomName];
        room.Detach(user);
      }
    }

    /** What `sendMessage` shows: nothing for a missing room. */
    function Sent(message: string, senderName: string, roomName: string): seq<Delivery>
      reads this, rooms.Values
    {
      if roomName in rooms then Deliveries(rooms[roomName].observers, ChatMessage(message, senderName, roomName))
      else []
    }

    /** `sendMessage(message, senderName, roomName)`. */
    method SendMessage(message: string, senderName: string, roomName: string) returns (out: seq<Delivery>)
      ensures out == Sent(message, senderName, roomName)
      ensures roomName !in rooms ==> out == []
      ensures roomName in rooms ==> forall o :: o in rooms[roomName].observers ==>
        (Delivery(o, ChatMessage(message, senderName, roomName)) in out <==> o.name != senderName)
    {
      if roomName in rooms {
        var room := rooms[roomName];
        out := room.Notify(ChatMessage(message, senderName, roomName));
        DeliveriesSpec(room.observers, ChatMessage(message, senderName, roomName));
      } else {
        out := [];
      }
    }
  }
}
