/** The table of clients by name, beside the list of names that is kept in the order of adding. */
module ClientRegistry {
  import opened Decimal
  import opened Lists

  type ClientId = nat

  /** An entry without a client is what merely asking for an unknown name leaves in the table. */
  datatype Registry = Registry(clients: map<string, Option<ClientId>>, names: seq<string>)

  function Added(reg: Registry, name: string, client: ClientId): Registry {
    Registry(reg.clients[name := Some(client)], reg.names + [name])
  }

  function Asked(reg: Registry, name: string): (Option<ClientId>, Registry) {
    if name in reg.clients then (reg.clients[name], reg) else (None, reg.(clients := reg.clients[name := None]))
  }

  function Deleted(reg: Registry, name: string): (Option<ClientId>, Registry) {
    var (client, reg') := Asked(reg, name);
    (client, Registry(reg'.clients - {name}, Without(reg'.names, name)))
  }

  /** The list names every entry of the table once, and nothing else. */
  ghost predicate Consistent(reg: Registry) {
    Distinct(reg.names) && forall n :: n in reg.names <==> n in reg.clients
  }

  lemma AddingKeepsConsistency(reg: Registry, name: string, client: ClientId)
    requires Consistent(reg)
    ensures Consistent(Added(reg, name, client)) <==> name !in reg.clients
  {
    var names := reg.names + [name];
    if name in reg.clients {
      var i :| 0 <= i < |reg.names| && reg.names[i] == name;
      assert names[i] == names[|reg.names|];
    }
  }

  lemma AskingKeepsConsistency(reg: Registry, name: string)
    requires Consistent(reg)
    ensures Consistent(Asked(reg, name).1) <==> name in reg.clients
  {
    if name !in reg.clients {
      assert name in Asked(reg, name).1.clients && name !in Asked(reg, name).1.names;
    }
  }

  lemma DeletingKeepsConsistency(reg: Registry, name: string)
    requires Consistent(reg)
    ensures Consistent(Deleted(reg, name).1)
  {
    WithoutKeepsDistinct(reg.names, name);
  }

  /** Deleting undoes adding exactly when the name was new. */
  lemma DeletingUndoesAdding(reg: Registry, name: string, client: ClientId)
    requires Consistent(reg)
    ensures Deleted(Added(reg, name, client), name) == (Some(client), reg) <==> name !in reg.clients
  {
    if name !in reg.clients {
      WithoutLast(reg.names, name);
      assert reg.clients[name := Some(client)] - {name} == reg.clients;
    }
  }

  /** What asking answers. */
  function Answer(reg: Registry, name: string): Option<ClientId> {
    Asked(reg, name).0
  }

  /** A client is found under its name from its adding to its deleting, whatever else is added, asked or deleted. */
  lemma ClientsAreFound(reg: Registry, name: string, other: string, client: ClientId)
    ensures Answer(Added(reg, name, client), other) == if other == name then Some(client) else Answer(reg, other)
    ensures Answer(Asked(reg, name).1, other) == Answer(reg, other)
    ensures Answer(Deleted(reg, name).1, other) == if other == name then None else Answer(reg, other)
    ensures Deleted(reg, name).0 == Answer(reg, name)
  {
  }

  class Clients {
    var clients: map<string, Option<ClientId>>
    var names: seq<string>

    ghost function View(): Registry
      reads this
    {
      Registry(clients, names)
    }

    constructor ()
      ensures View() == Registry(map[], [])
    {
      clients, names := map[], [];
    }

    method AddClient(name: string, client: ClientId)
      modifies this
      ensures View() == Added(old(View()), name, client)
    {
      clients := clients[name := Some(client)];
      names := names + [name];
    }

    /** The subscript operator of the table inserts what it does not find. */
    method GetClientByProfileName(name: string) returns (client: Option<ClientId>)
      modifies `clients
      ensures (client, View()) == Asked(old(View()), name)
    {
      if name !in clients {
        clients := clients[name := None];
      }
      client := clients[name];
    }

    method DeleteClient(name: string) returns (client: Option<ClientId>)
      modifies this
      ensures (client, View()) == Deleted(old(View()), name)
    {
      client := GetClientByProfileName(name);
      clients := clients - {name};
      names := Without(names, name);
    }
  }
}
