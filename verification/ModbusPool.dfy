/**
 The messenger pool of pkg/protocol/modbus/runtime/clients.go. Each locked section is one step; the
 one-slot channel of a request is a mailbox. Calls are made without cancellation, as the brokers do.
 */
module ModbusPool {
  import opened Keys

  type Messenger = nat

  /** The fields of Clients, and the messengers handed over to requests that have not picked them up yet. */
  datatype Pool = Pool(idle: nat, messengers: seq<Messenger>, requests: set<nat>, mailbox: map<nat, Messenger>,
                       next: nat)

  datatype Acquired = Got(messenger: Messenger) | MustWait(key: nat)

  ghost predicate PoolInv(p: Pool) {
    && p.idle == |p.messengers|
    && (p.requests != {} ==> p.idle == 0)
    && p.requests !! p.mailbox.Keys
    && (forall k | k in p.requests || k in p.mailbox :: k < p.next)
  }

  /** The locked section of GetMessenger: take the front messenger, or register a request under a new key. */
  ghost function Acquire(p: Pool): (Pool, Acquired)
    requires PoolInv(p)
  {
    if p.idle > 0 then (p.(idle := p.idle - 1, messengers := p.messengers[1..]), Got(p.messengers[0]))
    else (p.(requests := p.requests + {p.next}, next := p.next + 1), MustWait(p.next))
  }

  /** ReleaseMessenger: hand the messenger to some waiting request, or put it back. */
  function Release(p: Pool, m: Messenger, key: nat): Pool
    requires p.idle == 0 && p.requests != {} ==> key in p.requests
  {
    if p.idle == 0 && p.requests != {} then p.(requests := p.requests - {key}, mailbox := p.mailbox[key := m])
    else p.(messengers := p.messengers + [m], idle := p.idle + 1)
  }

  /** A waiting GetMessenger receives what was put into its channel. */
  function PickUp(p: Pool, key: nat): (Pool, Messenger)
    requires key in p.mailbox
  {
    (p.(mailbox := p.mailbox - {key}), p.mailbox[key])
  }

  class Clients {
    var messengers: seq<Messenger>
    var idle: nat
    var connRequests: set<nat>
    var channels: map<nat, Messenger>
    var nextRequest: nat

    function State(): Pool
      reads this
    {
      Pool(idle, messengers, connRequests, channels, nextRequest)
    }

    /** NewClients: all messengers idle, keys counted from 1. */
    constructor (messengers: seq<Messenger>)
      ensures PoolInv(State()) && State() == Pool(|messengers|, messengers, {}, map[], 1)
    {
      this.messengers, this.idle := messengers, |messengers|;
      this.connRequests, this.channels, this.nextRequest := {}, map[], 1;
    }

    method GetMessenger() returns (r: Acquired)
      requires PoolInv(State())
      modifies this
      ensures PoolInv(State()) && (State(), r) == Acquire(old(State()))
      ensures r.MustWait? ==> r.key !in old(connRequests) && r.key !in old(channels)
      ensures if old(messengers) != [] then r == Got(old(messengers)[0]) && messengers == old(messengers)[1..]
              else r.MustWait? && connRequests == old(connRequests) + {r.key} && messengers == []
    {
      if idle > 0 {
        idle := idle - 1;
        var messenger := messengers[0];
        messengers := messengers[1..];
        return Got(messenger);
      }
      var key := nextRequest;
      nextRequest := nextRequest + 1;
      connRequests := connRequests + {key};
      return MustWait(key);
    }

    method ReleaseMessenger(messenger: Messenger)
      requires PoolInv(State())
      modifies this
      ensures PoolInv(State())
      ensures exists key: nat ::
                (old(idle == 0 && connRequests != {}) ==> key in old(connRequests))
                && State() == Release(old(State()), messenger, key)
      ensures if old(messengers == [] && connRequests != {}) then
                && messengers == []
                && exists key | key in old(connRequests) ::
                     connRequests == old(connRequests) - {key} && channels == old(channels)[key := messenger]
              else messengers == old(messengers) + [messenger] && channels == old(channels)
    {
      if idle == 0 && |connRequests| > 0 {
        var key :| key in connRequests;
        connRequests := connRequests - {key};
        channels := channels[key := messenger];
        assert State() == Release(old(State()), messenger, key);
      } else {
        messengers := messengers + [messenger];
        idle := idle + 1;
        assert State() == Release(old(State()), messenger, 0);
      }
    }

    method Receive(key: nat) returns (m: Messenger)
      requires PoolInv(State()) && key in channels
      modifies this
      ensures PoolInv(State()) && (State(), m) == PickUp(old(State()), key)
      ensures m == old(channels)[key] && channels == old(channels) - {key} && messengers == old(messengers)
    {
      m := channels[key];
      channels := channels - {key};
    }
  }

  /** The messengers that are idle or on their way to a request. */
  ghost function InPool(p: Pool): multiset<Messenger> {
    multiset(p.messengers) + Mailed(p.mailbox)
  }

  ghost function Mailed(mailbox: map<nat, Messenger>): multiset<Messenger>
  {
    if mailbox == map[] then multiset{}
    else
      var k := Least(mailbox.Keys);
      Mailed(mailbox - {k}) + multiset{mailbox[k]}
  }

  /** Taking any letter out of the mailbox removes exactly its messenger. */
  lemma {:induction false} MailedRemove(mailbox: map<nat, Messenger>, key: nat)
    requires key in mailbox
    ensures Mailed(mailbox) == Mailed(mailbox - {key}) + multiset{mailbox[key]}
    decreases |mailbox|
  {
    var k := Least(mailbox.Keys);
    if k != key {
      var first, without, both := mailbox - {k}, mailbox - {key}, mailbox - {k} - {key};
      WithoutTwo(mailbox, k, key);
      MailedRemove(first, key);
    }
  }

  lemma WithoutTwo(mailbox: map<nat, Messenger>, k: nat, key: nat)
    requires k in mailbox && key in mailbox && k != key && forall j | j in mailbox :: k <= j
    ensures var without := mailbox - {key};
            && without.Keys != {} && Least(without.Keys) == k && without[k] == mailbox[k]
            && key in mailbox - {k} && (mailbox - {k})[key] == mailbox[key] && without - {k} == mailbox - {k} - {key}
  {
    var without := mailbox - {key};
    assert without.Keys == mailbox.Keys - {key} && k in without;
  }

  lemma MailedAdd(mailbox: map<nat, Messenger>, key: nat, m: Messenger)
    requires key !in mailbox
    ensures Mailed(mailbox[key := m]) == Mailed(mailbox) + multiset{m}
  {
    MailedRemove(mailbox[key := m], key);
    assert mailbox[key := m] - {key} == mailbox;
  }

  lemma AcquireKeeps(p: Pool)
    requires PoolInv(p)
    ensures var (p', r) := Acquire(p);
            PoolInv(p') && InPool(p) == InPool(p') + if r.Got? then multiset{r.messenger} else multiset{}
  {
    if p.idle > 0 {
      assert p.messengers == [p.messengers[0]] + p.messengers[1..];
    }
  }

  lemma ReleaseKeeps(p: Pool, m: Messenger, key: nat)
    requires PoolInv(p) && (p.idle == 0 && p.requests != {} ==> key in p.requests)
    ensures var p' := Release(p, m, key); PoolInv(p') && InPool(p') == InPool(p) + multiset{m}
  {
    if p.idle == 0 && p.requests != {} {
      MailedAdd(p.mailbox, key, m);
    }
  }

  lemma PickUpKeeps(p: Pool, key: nat)
    requires PoolInv(p) && key in p.mailbox
    ensures var (p', m) := PickUp(p, key); PoolInv(p') && InPool(p) == InPool(p') + multiset{m}
  {
    MailedRemove(p.mailbox, key);
  }
}
