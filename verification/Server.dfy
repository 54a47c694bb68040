/** The account service as it runs: clients are objects that the hash table's entries refer to. */
module Servers {
  import opened Accounts
  import opened HashSpec
  import opened HashTables
  import opened Names
  import opened Options
  import opened RingLists
  import opened Sequences

  class Client {
    const username: NameField
    const sessionId: nat
    var password: PassField

    constructor (username: NameField, password: PassField, sessionId: nat)
      ensures this.username == username && this.password == password && this.sessionId == sessionId
    {
      this.username, this.password, this.sessionId := username, password, sessionId;
    }
  }

  type ClientEntry = Entry<NameField, Client>

  /** The table represents these entries. */
  ghost predicate Stores(table: HTable<NameField, Name, Client>, entries: map<Name, ClientEntry>)
    reads table, table.Repr
  {
    table.Valid() && table.ops == ACCOUNT_OPS && Represents(ACCOUNT_OPS, table.View(), entries)
  }

  /** Every account is an object of its own, one for each name. */
  ghost predicate Kept(entries: map<Name, ClientEntry>, accounts: map<Name, Account>, clients: set<object>)
    reads clients
  {
    && entries.Keys == accounts.Keys
    && (forall n :: n in entries ==> entries[n].value in clients)
    && forall n :: n in entries ==>
      var e := entries[n];
      && e.hasFree && e.value.username == e.key && NameOf(e.key) == n
      && accounts[n] == Account(e.value.password, e.value.sessionId)
  }

  lemma KeepMore(entries: map<Name, ClientEntry>, accounts: map<Name, Account>, clients: set<object>, client: Client)
    requires Kept(entries, accounts, clients)
    ensures var name := NameOf(client.username);
      Kept(entries[name := Entry(client.username, client, true)],
           accounts[name := Account(client.password, client.sessionId)],
           clients + {client})
  {
    hide NameOf;
  }

  lemma KeepFewer(entries: map<Name, ClientEntry>, accounts: map<Name, Account>, clients: set<object>, name: Name)
    requires Kept(entries, accounts, clients)
    ensures Kept(entries - {name}, accounts - {name}, clients)
  {
    hide NameOf;
  }

  /** What an insertion means for the entries. */
  lemma InsertEffect(t: Table<NameField, Client>, entries: map<Name, ClientEntry>, e: ClientEntry)
    requires Represents(ACCOUNT_OPS, t, entries)
    requires NameOf(e.key) in entries || |entries| < MaxSize(LAST_CAPACITY)
    ensures Usable(t) && t.currSize == Total(t.chains) < SIZE_LIMIT
    ensures HashSpec.Find(ACCOUNT_OPS, t, e.key) == None <==> NameOf(e.key) !in entries
    ensures Represents(ACCOUNT_OPS, Insert(ACCOUNT_OPS, t, e),
                       if NameOf(e.key) in entries then entries else entries[NameOf(e.key) := e])
  {
    AccountOpsLawful();
    SizeAndLoad(ACCOUNT_OPS, t, entries);
    FindCorrect(ACCOUNT_OPS, t, entries, e.key);
    InsertCorrect(ACCOUNT_OPS, t, entries, e);
    hide Insert, Find, Represents, Bag, Total;
  }

  /** htable_insert on a table that represents known entries. */
  method InsertInto(table: HTable<NameField, Name, Client>, ghost entries: map<Name, ClientEntry>, e: ClientEntry)
    returns (after: HTable<NameField, Name, Client>, ok: bool)
    requires Stores(table, entries)
    requires NameOf(e.key) in entries || |entries| < MaxSize(LAST_CAPACITY)
    modifies table.Repr
    ensures after in after.Repr && fresh(after.Repr - old(table.Repr))
    ensures ok <==> NameOf(e.key) !in entries
    ensures Stores(after, if ok then entries[NameOf(e.key) := e] else entries)
  {
    hide HTable<NameField, Name, Client>.Valid, Represents, NameOf, Insert, HashSpec.Find, Usable, Total, MaxSize;
    InsertEffect(table.View(), entries, e);
    after, ok := HTable<NameField, Name, Client>.Insert(table, e);
  }

  /** htable_remove on a table that has an entry of that name. */
  method RemoveFrom(table: HTable<NameField, Name, Client>, ghost entries: map<Name, ClientEntry>, uname: NameField)
    requires Stores(table, entries) && NameOf(uname) in entries
    modifies table.Repr
    ensures table in table.Repr && fresh(table.Repr - old(table.Repr))
    ensures Stores(table, entries - {NameOf(uname)})
  {
    AccountOpsLawful();
    RemoveCorrect(ACCOUNT_OPS, table.View(), entries, uname);
    hide HTable<NameField, Name, Client>.Valid, Represents, NameOf, Remove, Lawful;
    var removed := table.Remove(uname);
  }

  /** A creation that is not refused leaves at most 3 * 2^28 accounts. */
  predicate HasRoom(s: State, r: Request)
    requires Fits(r)
  {
    r.Create? ==> |After(s, r).accounts| <= MaxSize(LAST_CAPACITY)
  }

  class Server {
    var table: HTable?<NameField, Name, Client>
    var sessionId: nat
    ghost var entries: map<Name, ClientEntry>  // what the table represents
    ghost var state: State
    ghost var clients: set<object>
    ghost var Repr: set<object>

    ghost predicate Valid()
      reads this, Repr
      ensures Valid() ==> this in Repr
    {
      && this in Repr && clients <= Repr && this !in clients
      && (if table == null then entries == map[]
          else table in Repr && table.Repr <= Repr - clients && this !in table.Repr && Stores(table, entries))
      && sessionId == state.counter
      && Kept(entries, state.accounts, clients)
    }

    constructor ()
      ensures Valid() && fresh(Repr) && state == State(map[], 0)
    {
      table, sessionId, entries, state, clients, Repr := null, 0, map[], State(map[], 0), {}, {this};
    }

    /** verify_client: the entry of the name, when the password is right. */
    method VerifyClient(uname: NameField, password: PassField) returns (found: Option<ClientEntry>, failure: Reply)
      requires Valid()
      ensures found.None? ==> Refusal(state, uname, password) == Some(failure)
      ensures found.Some? ==>
        && Refusal(state, uname, password) == None && table != null
        && NameOf(uname) in entries && found.value == entries[NameOf(uname)]
        && NameOf(found.value.value.username) == NameOf(uname) && NameOf(uname) in state.accounts
        && state.accounts[NameOf(uname)] == Account(found.value.value.password, found.value.value.sessionId)
    {
      found, failure := None, Failure(INVALID_UNAME);
      if table == null {
        return;
      }
      AccountOpsLawful();
      FindCorrect(ACCOUNT_OPS, table.View(), entries, uname);
      found := table.Find(uname);
      if found == None {
        return;
      }
      if StrNCmp(password, found.value.value.password, PASS_MAX) != 0 {
        return None, Failure(INVALID_LOGIN);
      }
    }

    /** create_account. */
    method CreateAccount(unameLen: nat, uname: NameField, passLen: nat, password: PassField) returns (reply: Reply)
      requires Valid() && Fits(Create(unameLen, uname, passLen, password))
      requires HasRoom(state, Create(unameLen, uname, passLen, password))
      modifies Repr
      ensures Valid() && fresh(Repr - old(Repr))
      ensures reply == Answer(old(state), Create(unameLen, uname, passLen, password))
      ensures state == After(old(state), Create(unameLen, uname, passLen, password))
    {
      hide Valid, Answer, After, MaxSize;
      if table == null {
        CreateTable();
      }
      reply := Register(unameLen, uname, passLen, password);
    }

    /** create_account, when there is a table. */
    method Register(unameLen: nat, uname: NameField, passLen: nat, password: PassField) returns (reply: Reply)
      requires Valid() && Fits(Create(unameLen, uname, passLen, password))
      requires table != null && HasRoom(state, Create(unameLen, uname, passLen, password))
      modifies Repr
      ensures Valid() && fresh(Repr - old(Repr))
      ensures reply == Answer(old(state), Create(unameLen, uname, passLen, password))
      ensures state == After(old(state), Create(unameLen, uname, passLen, password))
    {
      hide Valid, NewName, NameOf, StrNCpy, StrNCmp, MaxSize;
      NextSession();
      var stored := StrNCpy(Repeat<Byte>(0, PASS_MAX), password, passLen + 1);
      var client := new Client(NewName(uname, unameLen), stored, sessionId);
      var ok := AddClient(client);
      if !ok {
        return Failure(SERVER_ERROR);
      }
      return Ack(client.sessionId);
    }

    method NextSession()
      requires Valid()
      modifies this
      ensures Valid() && Repr == old(Repr) && table == old(table)
      ensures sessionId == (old(state.counter) + 1) % UINT64 && state == old(state).(counter := sessionId)
    {
      hide Kept, Stores;
      sessionId := (sessionId + 1) % UINT64;
      state := state.(counter := sessionId);
    }

    method CreateTable()
      requires Valid() && table == null
      modifies Repr
      ensures Valid() && fresh(Repr - old(Repr)) && table != null && state == old(state) && sessionId == old(sessionId)
    {
      NewTableCorrect<NameField, Name, Client>(ACCOUNT_OPS);
      table := new HTable(ACCOUNT_OPS);
      Repr := Repr + table.Repr;
    }

    /** The insertion in create_account, which refers to the table and may replace it. */
    method AddClient(client: Client) returns (ok: bool)
      requires Valid() && table != null && client !in Repr
      requires NameOf(client.username) in state.accounts || |state.accounts| < MaxSize(LAST_CAPACITY)
      modifies Repr
      ensures Valid() && fresh(Repr - old(Repr) - {client})
      ensures ok <==> NameOf(client.username) !in old(state.accounts)
      ensures var account := Account(client.password, client.sessionId);
        state ==
        if ok then old(state).(accounts := old(state).accounts[NameOf(client.username) := account]) else old(state)
    {
      hide Stores, NameOf, MaxSize;
      var e, name := Entry(client.username, client, true), NameOf(client.username);
      assert |entries| == |entries.Keys| == |state.accounts|;
      assert entries.Keys == state.accounts.Keys;
      hide Kept;
      table, ok := InsertInto(table, entries, e);
      Repr := Repr + table.Repr + {client};
      if ok {
        Admit(client);
      }
    }

    /** The account is in the table. */
    ghost method Admit(client: Client)
      requires this in Repr && client in Repr && clients <= Repr && this !in clients
      requires table != null && table in Repr && table.Repr <= Repr - clients - {this, client}
      requires Stores(table, entries[NameOf(client.username) := Entry(client.username, client, true)])
      requires sessionId == state.counter && Kept(entries, state.accounts, clients)
      modifies this`entries, this`state, this`clients
      ensures Valid()
      ensures var account := Account(client.password, client.sessionId);
        state == old(state).(accounts := old(state).accounts[NameOf(client.username) := account])
    {
      hide Stores, NameOf, Kept;
      var name := NameOf(client.username);
      KeepMore(entries, state.accounts, clients, client);
      entries := entries[name := Entry(client.username, client, true)];
      state := state.(accounts := state.accounts[name := Account(client.password, client.sessionId)]);
      clients := clients + {client};
    }

    lemma OneEntryEach()
      requires Valid() && table != null
      ensures table.currSize == |state.accounts|
    {
      SizeAndLoad(ACCOUNT_OPS, table.View(), entries);
      assert |entries| == |entries.Keys| == |state.accounts|;
      hide Represents, HTable<NameField, Name, Client>.Valid;
    }

    /** handle_login, up to the reply. */
    method HandleLogin(uname: NameField, password: PassField) returns (reply: Reply)
      requires Valid()
      ensures reply == Answer(state, Login(uname, password))
    {
      hide Stores, NameOf, StrNCmp;
      if table == null {
        return Failure(INVALID_UNAME);
      }
      hide Valid;
      var found;
      found, reply := VerifyClient(uname, password);
      if found == None {
        return;
      }
      OneEntryEach();
      var numUsers := table.currSize % UINT8;
      if StrNCmp(password, found.value.value.password, PASS_MAX) != 0 {
        return Failure(INVALID_LOGIN);
      }
      return LoginAck(numUsers);
    }

    /** remove_client. */
    method RemoveClient(uname: NameField, password: PassField) returns (reply: Reply)
      requires Valid()
      modifies Repr
      ensures Valid() && fresh(Repr - old(Repr))
      ensures reply == Answer(old(state), Delete(uname, password))
      ensures state == After(old(state), Delete(uname, password))
    {
      hide Valid, NameOf, StrNCmp;
      var found;
      found, reply := VerifyClient(uname, password);
      if found == None {
        return;
      }
      DropClient(found.value.value);
      reply := Silent;
    }

    /** The removal in remove_client. */
    method DropClient(client: Client)
      requires Valid() && table != null
      requires NameOf(client.username) in entries
      modifies Repr
      ensures Valid() && fresh(Repr - old(Repr))
      ensures state == old(state).(accounts := old(state).accounts - {NameOf(client.username)})
    {
      hide Stores, NameOf;
      var name := NameOf(client.username);
      KeepFewer(entries, state.accounts, clients, name);
      hide Kept;
      RemoveFrom(table, entries, client.username);
      entries := entries - {name};
      state := state.(accounts := state.accounts - {name});
      Repr := Repr + table.Repr;
    }

    /** update_client. */
    method UpdateClient(uname: NameField, password: PassField, newPassLen: nat, newPassword: PassField)
      returns (reply: Reply)
      requires Valid() && newPassLen < PASS_MAX
      modifies Repr
      ensures Valid() && Repr == old(Repr)
      ensures reply == Answer(old(state), Update(uname, password, newPassLen, newPassword))
      ensures state == After(old(state), Update(uname, password, newPassLen, newPassword))
    {
      hide Stores, NameOf, StrNCmp, StrNCpy;
      var found;
      found, reply := VerifyClient(uname, password);
      if found == None {
        return;
      }
      var client := found.value.value;
      SetPassword(client, StrNCpy(client.password, newPassword, newPassLen + 1));
      reply := UpdateAck;
    }

    /** Writes the password of a client in place; the other accounts stay. */
    method SetPassword(client: Client, password: PassField)
      requires Valid() && NameOf(client.username) in entries && client == entries[NameOf(client.username)].value
      modifies this`state, client
      ensures Valid() && Repr == old(Repr)
      ensures var name, was := NameOf(client.username), old(state);
        && name in was.accounts
        && state == was.(accounts := was.accounts[name := was.accounts[name].(password := password)])
    {
      hide Stores, NameOf;
      var name := NameOf(client.username);
      client.password := password;
      state := state.(accounts := state.accounts[name := state.accounts[name].(password := password)]);
    }

    /** The requests that handle_clients passes on. */
    method Handle(r: Request) returns (reply: Reply)
      requires Valid() && Fits(r) && HasRoom(state, r)
      modifies Repr
      ensures Valid() && fresh(Repr - old(Repr))
      ensures reply == Answer(old(state), r) && state == After(old(state), r)
    {
      hide Valid, Refusal, NameOf, NewName, StrNCpy, MaxSize;
      match r {
        case Create(unameLen, uname, passLen, password) =>
          reply := CreateAccount(unameLen, uname, passLen, password);
        case Login(uname, password) =>
          reply := HandleLogin(uname, password);
        case Delete(uname, password) =>
          reply := RemoveClient(uname, password);
        case Update(uname, password, newPassLen, newPassword) =>
          reply := UpdateClient(uname, password, newPassLen, newPassword);
      }
    }
  }
}
