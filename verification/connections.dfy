/**
 * The connection manager: the operator's saved list of bot endpoints,
 * the two input fields of its "add" form, and the add and delete handlers.
 */
module Connections {

  /** A saved bot endpoint; entries are told apart by `id` alone. */
  datatype BotConnection = BotConnection(id: string, name: string, url: string)

  /** The ids carried by the entries of `conns`. */
  function Ids(conns: seq<BotConnection>): set<string>
  {
    set c | c in conns :: c.id
  }

  /** No two entries share an id. */
  predicate UniqueIds(conns: seq<BotConnection>)
  {
    forall i, j | 0 <= i < j < |conns| :: conns[i].id != conns[j].id
  }

  /** Number of entries whose id is `id`. */
  function CountId(conns: seq<BotConnection>, id: string): nat
  {
    if conns == [] then 0
    else (if conns[0].id == id then 1 else 0) + CountId(conns[1..], id)
  }

  /**
   * The guard of the add handler and of the add button: both the name and
   * the URL are non-empty strings (`!newBotName || !newBotUrl` is false).
   */
  predicate CanAdd(name: string, url: string): (ok: bool)
    ensures ok ==> |name| > 0 && |url| > 0
    ensures name == "" || url == "" ==> !ok
  {
    name != "" && url != ""
  }

  /** `connections.filter(c => c.id !== id)` */
  function WithoutId(conns: seq<BotConnection>, id: string): (r: seq<BotConnection>)
    ensures Ids(r) == Ids(conns) - {id}
    ensures |r| == |conns| - CountId(conns, id)
  {
    if conns == [] then []
    else
      var rest := WithoutId(conns[1..], id);
      assert conns == [conns[0]] + conns[1..];
      assert Ids(conns) == {conns[0].id} + Ids(conns[1..]);
      if conns[0].id != id then
        assert Ids([conns[0]] + rest) == {conns[0].id} + Ids(rest);
        [conns[0]] + rest
      else rest
  }

  /** Filtering distributes over concatenation: survivors keep their relative order. */
  lemma WithoutIdCons(c: BotConnection, rest: seq<BotConnection>, id: string)
    ensures WithoutId([c] + rest, id) == (if c.id != id then [c] else []) + WithoutId(rest, id)
  {
    assert ([c] + rest)[0] == c && ([c] + rest)[1..] == rest;
  }

  lemma {:induction false} WithoutIdAppend(s: seq<BotConnection>, t: seq<BotConnection>, id: string)
    ensures WithoutId(s + t, id) == WithoutId(s, id) + WithoutId(t, id)
    decreases |s|
  {
    if s == [] {
      assert s + t == t;
    } else {
      assert s == [s[0]] + s[1..] && s + t == [s[0]] + (s[1..] + t);
      WithoutIdCons(s[0], s[1..] + t, id);
      WithoutIdCons(s[0], s[1..], id);
      WithoutIdAppend(s[1..], t, id);
    }
  }

  /** An entry survives a delete exactly when it was there and carries another id. */
  lemma {:induction false} WithoutIdMembers(conns: seq<BotConnection>, id: string, c: BotConnection)
    ensures c in WithoutId(conns, id) <==> c in conns && c.id != id
  {
    if conns != [] {
      WithoutIdMembers(conns[1..], id, c);
      assert conns == [conns[0]] + conns[1..];
    }
  }

  /** A single entry survives exactly when its id differs. */
  lemma WithoutIdSingle(c: BotConnection, id: string)
    ensures WithoutId([c], id) == if c.id == id then [] else [c]
  {
  }

  /** Deleting an id that no entry carries leaves the list as it was. */
  lemma {:induction false} WithoutIdAbsent(conns: seq<BotConnection>, id: string)
    requires id !in Ids(conns)
    ensures WithoutId(conns, id) == conns
  {
    if conns != [] {
      assert conns[0] in conns;
      assert Ids(conns[1..]) <= Ids(conns) by {
        forall x | x in Ids(conns[1..]) ensures x in Ids(conns) {
          var c :| c in conns[1..] && c.id == x;
          assert c in conns;
        }
      }
      WithoutIdAbsent(conns[1..], id);
      assert conns == [conns[0]] + conns[1..];
    }
  }

  /** Deleting the same id twice is deleting it once. */
  lemma WithoutIdIdempotent(conns: seq<BotConnection>, id: string)
    ensures WithoutId(WithoutId(conns, id), id) == WithoutId(conns, id)
  {
  }

  lemma UniqueIdsTail(conns: seq<BotConnection>)
    requires conns != []
    ensures UniqueIds(conns) <==> conns[0].id !in Ids(conns[1..]) && UniqueIds(conns[1..])
  {
  }

  /** Deleting keeps ids pairwise distinct. */
  lemma {:induction false} WithoutIdKeepsUnique(conns: seq<BotConnection>, id: string)
    requires UniqueIds(conns)
    ensures UniqueIds(WithoutId(conns, id))
  {
    if conns != [] {
      UniqueIdsTail(conns);
      WithoutIdKeepsUnique(conns[1..], id);
      var rest := WithoutId(conns[1..], id);
      if conns[0].id != id {
        assert ([conns[0]] + rest)[1..] == rest;
        UniqueIdsTail([conns[0]] + rest);
      }
    }
  }

  /** With distinct ids, a delete removes at most one entry, and one exactly when the id is present. */
  lemma {:induction false} UniqueCountAtMostOne(conns: seq<BotConnection>, id: string)
    requires UniqueIds(conns)
    ensures CountId(conns, id) == if id in Ids(conns) then 1 else 0
    ensures |WithoutId(conns, id)| == |conns| - (if id in Ids(conns) then 1 else 0)
  {
    if conns != [] {
      UniqueIdsTail(conns);
      UniqueCountAtMostOne(conns[1..], id);
      assert conns == [conns[0]] + conns[1..];
      assert Ids(conns) == {conns[0].id} + Ids(conns[1..]);
    }
  }

  /** Appending an entry whose id is fresh keeps ids pairwise distinct. */
  lemma AppendFreshKeepsUnique(conns: seq<BotConnection>, c: BotConnection)
    requires UniqueIds(conns) && c.id !in Ids(conns)
    ensures UniqueIds(conns + [c])
  {
  }

  /** A call the component makes to its collaborators, with the list it hands over. */
  datatype Effect = Save(list: seq<BotConnection>) | Notify(list: seq<BotConnection>)

  /**
   * The component's state. `effects` records, oldest first, every call to
   * `saveConnections` (`Save`) and to `onConnectionsChange` (`Notify`).
   */
  class ConnectionManager {
    var connections: seq<BotConnection>
    var newBotName: string
    var newBotUrl: string
    ghost var effects: seq<Effect>

    /** Mounting: empty inputs, and the list loaded from storage by the mount effect. */
    constructor (stored: seq<BotConnection>)
      ensures connections == stored
      ensures newBotName == "" && newBotUrl == ""
      ensures effects == []
    {
      connections := stored;
      newBotName := "";
      newBotUrl := "";
      effects := [];
    }

    /** The name input's change handler. */
    method SetNewBotName(value: string)
      modifies this`newBotName
      ensures newBotName == value
    {
      newBotName := value;
    }

    /** The URL input's change handler. */
    method SetNewBotUrl(value: string)
      modifies this`newBotUrl
      ensures newBotUrl == value
    {
      newBotUrl := value;
    }

    /**
     * The add handler. `freshId` is the value of `crypto.randomUUID()`,
     * different from every id already in the list.
     */
    method HandleAdd(freshId: string)
      requires freshId !in Ids(connections)
      modifies this
      ensures !CanAdd(old(newBotName), old(newBotUrl)) ==>
        && connections == old(connections)
        && newBotName == old(newBotName) && newBotUrl == old(newBotUrl)
        && effects == old(effects)
      ensures CanAdd(old(newBotName), old(newBotUrl)) ==>
        && connections == old(connections) + [BotConnection(freshId, old(newBotName), old(newBotUrl))]
        && newBotName == "" && newBotUrl == ""
        && effects == old(effects) + [Save(connections), Notify(connections)]
      ensures Ids(connections) == Ids(old(connections)) + (if CanAdd(old(newBotName), old(newBotUrl)) then {freshId} else {})
      ensures UniqueIds(old(connections)) ==> UniqueIds(connections)
    {
      if !CanAdd(newBotName, newBotUrl) {
        return;
      }
      var newConnection := BotConnection(freshId, newBotName, newBotUrl);
      var updated := connections + [newConnection];
      if UniqueIds(connections) {
        AppendFreshKeepsUnique(connections, newConnection);
      }
      connections := updated;
      effects := effects + [Save(updated)];
      effects := effects + [Notify(updated)];
      newBotName := "";
      newBotUrl := "";
    }

    /** The delete handler of the row whose entry has id `id`. */
    method HandleDelete(id: string)
      modifies this`connections, this`effects
      ensures connections == WithoutId(old(connections), id)
      ensures effects == old(effects) + [Save(connections), Notify(connections)]
      ensures id !in Ids(old(connections)) ==> connections == old(connections)
      ensures UniqueIds(old(connections)) ==> UniqueIds(connections)
    {
      var updated := WithoutId(connections, id);
      if id !in Ids(connections) {
        WithoutIdAbsent(connections, id);
      }
      if UniqueIds(connections) {
        WithoutIdKeepsUnique(connections, id);
      }
      connections := updated;
      effects := effects + [Save(updated)];
      effects := effects + [Notify(updated)];
    }
  }
}
