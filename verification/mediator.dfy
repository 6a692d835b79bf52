/** The team mediator of 5/2/index.js: colleagues registered by name, a
    private `send` to one named colleague and a `broadcast` to everyone but the
    sender. Console output is modelled as the sequence of receipts. */
module TeamMediator {
  import opened Seqs

  /** One `receive(message, senderName)` call on `receiver`. */
  datatype Receipt = Receipt(receiver: Colleague, senderName: string, message: string)

  class Colleague {
    const name: string
    var mediator: Mediator?

    constructor (name: string)
      ensures this.name == name && mediator == null
    {
      this.name := name;
      mediator := null;
    }

    method SetMediator(m: Mediator?)
      modifies this
      ensures mediator == m
    {
      mediator := m;
    }

    /** `send(message, receiverName)`: the mediator's send with this colleague
        as sender. */
    method Send(message: string, receiverName: string) returns (out: seq<Receipt>)
      requires mediator != null && mediator.Valid()
      ensures out == mediator.Sent(message, this, receiverName)
    {
      out := mediator.Send(message, this, receiverName);
    }

    /** `broadcast(message)`: the mediator's broadcast with this colleague as
        sender, so it never reaches this colleague. */
    method Broadcast(message: string) returns (out: seq<Receipt>)
      requires mediator != null && mediator.Valid()
      ensures out == Broadcasted(mediator.Members(), message, this)
      ensures forall r :: r in out ==> r.receiver != this && r.senderName == name
    {
      out := mediator.Broadcast(message, this);
      BroadcastedSpec(mediator.Members(), message, this);
    }
  }

  /** What `colleagues.forEach` delivers to the members in order, skipping the
      sender object itself. */
  function Broadcasted(members: seq<Colleague>, message: string, sender: Colleague): (r: seq<Receipt>)
    ensures |r| <= |members|
    decreases |members|
  {
    if |members| == 0 then []
    else
      var first := if members[0] != sender then [Receipt(members[0], sender.name, message)] else [];
      first + Broadcasted(members[1..], message, sender)
  }

  /** Every member but the sender receives the broadcast, tagged with the
      sender's name; the sender does not. */
  lemma {:induction false} BroadcastedSpec(members: seq<Colleague>, message: string, sender: Colleague)
    ensures forall r :: r in Broadcasted(members, message, sender) ==>
      r.receiver in members && r.receiver != sender && r.senderName == sender.name && r.message == message
    ensures forall c :: c in members && c != sender ==> Receipt(c, sender.name, message) in Broadcasted(members, message, sender)
    decreases |members|
  {
    if |members| > 0 {
      BroadcastedSpec(members[1..], message, sender);
      assert forall c :: c in members ==> c == members[0] || c in members[1..];
    }
  }

  /** Among distinct members, the broadcast reaches all but one when the sender
      is registered, and all of them when it is not. */
  lemma {:induction false} BroadcastedCount(members: seq<Colleague>, message: string, sender: Colleague)
    requires NoDups(members)
    ensures |Broadcasted(members, message, sender)| == |members| - (if sender in members then 1 else 0)
    decreases |members|
  {
    if |members| > 0 {
      BroadcastedCount(members[1..], message, sender);
      assert members[0] !in members[1..];
      assert sender in members <==> sender == members[0] || sender in members[1..];
    }
  }

  class Mediator {
    var colleagues: map<string, Colleague>
    /** The order in which `Map.forEach` visits the names: first insertion. */
    var order: seq<string>

    /** Each name appears once in `order` exactly when it is a key, and each
        colleague is filed under its own name. */
    ghost predicate Valid()
      reads this
    {
      NoDups(order)
      && (forall k :: k in colleagues <==> k in order)
      && (forall k | k in colleagues :: colleagues[k].name == k)
    }

    /** The registered colleagues in map order. */
    function Members(): (r: seq<Colleague>)
      requires Valid()
      reads this
      ensures |r| == |order|
    {
      Lookup(order, colleagues)
    }

    /** Distinct names hold distinct colleagues, so no colleague is visited
        twice. */
    lemma MembersDistinct()
      requires Valid()
      ensures NoDups(Members())
    {
      var m := Members();
      forall i, j | 0 <= i < j < |m|
        ensures m[i] != m[j]
      {
        LookupAt(order, colleagues, i);
        LookupAt(order, colleagues, j);
        assert m[i].name == order[i] && m[j].name == order[j];
      }
    }

    /** The members are exactly the registered colleagues, one per name. */
    lemma MembersAreColleagues(c: Colleague)
      requires Valid()
      ensures |Members()| == |colleagues|
      ensures c in Members() <==> c in colleagues.Values
    {
      var m := Members();
      assert colleagues.Keys == set k | k in order;
      SeqSetSize(order);
      if c in colleagues.Values {
        var k :| k in colleagues && colleagues[k] == c;
        var j :| 0 <= j < |order| && order[j] == k;
        LookupAt(order, colleagues, j);
      }
      if c in m {
        var j :| 0 <= j < |m| && m[j] == c;
        LookupAt(order, colleagues, j);
      }
    }

    constructor ()
      ensures Valid() && colleagues == map[] && order == []
    {
      colleagues := map[];
      order := [];
    }

    /** `register(colleague)`: the name now maps to this colleague, replacing an
        earlier one with that name in its old position, and the colleague gets
        this mediator. */
    method Register(colleague: Colleague)
      requires Valid()
      modifies this, colleague
      ensures Valid()
      ensures colleagues == old(colleagues)[colleague.name := colleague]
      ensures order == if colleague.name in old(colleagues) then old(order) else old(order) + [colleague.name]
      ensures colleague.mediator == this
    {
      if colleague.name !in colleagues {
        AppendNoDups(order, colleague.name);
        order := order + [colleague.name];
      }
      colleagues := colleagues[colleague.name := colleague];
      colleague.SetMediator(this);
    }

    /** What `send` delivers: one receipt for a known receiver, none otherwise. */
    function Sent(message: string, sender: Colleague, receiverName: string): seq<Receipt>
      reads this
    {
      if receiverName in colleagues then [Receipt(colleagues[receiverName], sender.name, message)] else []
    }

    /** `send(message, sender, receiverName)`. */
    method Send(message: string, sender: Colleague, receiverName: string) returns (out: seq<Receipt>)
      ensures out == Sent(message, sender, receiverName)
      ensures receiverName in colleagues ==> out == [Receipt(colleagues[receiverName], sender.name, message)]
      ensures receiverName !in colleagues ==> out == []
    {
      if receiverName in colleagues {
        var receiver := colleagues[receiverName];
        out := [Receipt(receiver, sender.name, message)];
      } else {
        out := [];
      }
    }

    /** `broadcast(message, sender)`: every registered colleague except the
        sender object, once each, in map order. */
    method Broadcast(message: string, sender: Colleague) returns (out: seq<Receipt>)
      requires Valid()
      ensures out == Broadcasted(Members(), message, sender)
      ensures |out| == |colleagues| - (if sender in colleagues.Values then 1 else 0)
    {
      var members := Members();
      out := [];
      var i := 0;
      while i < |order|
        invariant 0 <= i <= |order|
        invariant out + Broadcasted(members[i..], message, sender) == Broadcasted(members, message, sender)
      {
        var colleague := colleagues[order[i]];
        LookupAt(order, colleagues, i);
        BroadcastedStep(members, i, message, sender, out);
        if colleague != sender {
          out := out + [Receipt(colleague, sender.name, message)];
        }
        i := i + 1;
      }
      assert members[i..] == [];
      BroadcastCount(message, sender);
    }

    /** Broadcasting reaches every colleague but the sender. */
    lemma BroadcastCount(message: string, sender: Colleague)
      requires Valid()
      ensures |Broadcasted(Members(), message, sender)| == |colleagues| - (if sender in colleagues.Values then 1 else 0)
    {
      MembersDistinct();
      BroadcastedCount(Members(), message, sender);
      MembersAreColleagues(sender);
    }
  }

  /** One step of the broadcast loop: the receipts so far, then the next
      member's, then the rest. */
  lemma BroadcastedStep(members: seq<Colleague>, i: nat, message: string, sender: Colleague, out: seq<Receipt>)
    requires i < |members|
    ensures var first := if members[i] != sender then [Receipt(members[i], sender.name, message)] else [];
      out + Broadcasted(members[i..], message, sender) == (out + first) + Broadcasted(members[i + 1..], message, sender)
  {
    assert members[i..][0] == members[i];
    assert members[i..][1..] == members[i + 1..];
  }

  /** The colleagues filed under `names`, in that order. */
  function Lookup(names: seq<string>, m: map<string, Colleague>): (r: seq<Colleague>)
    requires forall k :: k in names ==> k in m
    ensures |r| == |names|
    decreases |names|
  {
    if |names| == 0 then [] else [m[names[0]]] + Lookup(names[1..], m)
  }

  lemma {:induction false} LookupAt(names: seq<string>, m: map<string, Colleague>, i: nat)
    requires forall k :: k in names ==> k in m
    requires i < |names|
    ensures Lookup(names, m)[i] == m[names[i]]
    decreases |names|
  {
    if i > 0 {
      LookupAt(names[1..], m, i - 1);
    }
  }

  lemma {:induction false} SeqSetSize(s: seq<string>)
    requires NoDups(s)
    ensures |set k | k in s| == |s|
    decreases |s|
  {
    if |s| > 0 {
      SeqSetSize(s[1..]);
      assert (set k | k in s) == {s[0]} + (set k | k in s[1..]);
      assert s[0] !in s[1..];
    }
  }
}
