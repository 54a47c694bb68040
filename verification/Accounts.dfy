/** The account service of server_client_helper.c, one request after the other. */
module Accounts {
  import opened Names
  import opened Options
  import opened Sequences

  const PASS_MAX: nat := 25
  const UINT64: nat := 0x1_0000_0000_0000_0000
  const UINT8: nat := 0x100

  const SERVER_ERROR: nat := 0x06
  const INVALID_UNAME: nat := 0x07
  const INVALID_LOGIN: nat := 0x08

  type PassField = f: seq<Byte> | |f| == PASS_MAX
    witness [0, 0, 0, 0, 0, 0, 0, 0, 0, 0, 0, 0, 0, 0, 0, 0, 0, 0, 0, 0, 0, 0, 0, 0, 0]

  /** strncpy: n bytes are written, the string and then NULs; the rest of the destination stays. */
  function StrNCpy(dest: seq<Byte>, src: seq<Byte>, n: nat): (r: seq<Byte>)
    requires n <= |dest| && Readable(src, n)
    ensures |r| == |dest|
    ensures forall i :: 0 <= i < |r| ==>
      r[i] == if i < StrNLen(src, n) then src[i] else if i < n then 0 else dest[i]
  {
    CStr(src, n) + Repeat<Byte>(0, n - StrNLen(src, n)) + dest[n..]
  }

  function NewName(uname: NameField, unameLen: nat): (f: NameField)
    requires unameLen < UNAME_MAX
  {
    StoredNameEnds(uname, unameLen);
    StrNCpy(Repeat<Byte>(0, UNAME_MAX), uname, unameLen + 1)
  }

  lemma StoredNameEnds(uname: NameField, unameLen: nat)
    requires unameLen < UNAME_MAX
    ensures 0 in StrNCpy(Repeat<Byte>(0, UNAME_MAX), uname, unameLen + 1)
  {
    var r := StrNCpy(Repeat<Byte>(0, UNAME_MAX), uname, unameLen + 1);
    var k :| 0 <= k < UNAME_MAX && uname[k] == 0;
    assert r[UNAME_MAX - 1] == 0;
  }

  // ----- What the service computes -----

  /** A request packet, without its framing. */
  datatype Request =
    | Create(unameLen: nat, uname: NameField, passLen: nat, password: PassField)
    | Login(uname: NameField, password: PassField)
    | Delete(uname: NameField, password: PassField)
    | Update(uname: NameField, password: PassField, newPassLen: nat, newPassword: PassField)

  /** What the client is sent; a deletion is not answered. */
  datatype Reply = Ack(sessionId: nat) | LoginAck(numUsers: nat) | UpdateAck | Silent | Failure(opcode: nat)

  datatype Account = Account(password: PassField, sessionId: nat)

  datatype State = State(accounts: map<Name, Account>, counter: nat)

  /** The lengths that are passed to strncpy stay within the destination. */
  predicate Fits(r: Request) {
    match r
    case Create(unameLen, _, passLen, _) => unameLen < UNAME_MAX && passLen < PASS_MAX
    case Login(_, _) => true
    case Delete(_, _) => true
    case Update(_, _, newPassLen, _) => newPassLen < PASS_MAX
  }

  function Refusal(s: State, uname: NameField, password: PassField): Option<Reply> {
    if NameOf(uname) !in s.accounts then Some(Failure(INVALID_UNAME))
    else if StrNCmp(password, s.accounts[NameOf(uname)].password, PASS_MAX) != 0 then Some(Failure(INVALID_LOGIN))
    else None
  }

  function Answer(s: State, r: Request): Reply
    requires Fits(r)
  {
    match r
    case Create(unameLen, uname, _, _) =>
      if NameOf(NewName(uname, unameLen)) in s.accounts then Failure(SERVER_ERROR) else Ack((s.counter + 1) % UINT64)
    case Login(uname, password) =>
      var refusal := Refusal(s, uname, password);
      if refusal.Some? then refusal.value else LoginAck(|s.accounts| % UINT8)
    case Delete(uname, password) =>
      var refusal := Refusal(s, uname, password);
      if refusal.Some? then refusal.value else Silent
    case Update(uname, password, _, _) =>
      var refusal := Refusal(s, uname, password);
      if refusal.Some? then refusal.value else UpdateAck
  }

  /** A refused creation still takes a session number. */
  function After(s: State, r: Request): State
    requires Fits(r)
  {
    match r
    case Create(unameLen, uname, passLen, password) =>
      var name, counter := NameOf(NewName(uname, unameLen)), (s.counter + 1) % UINT64;
      if name in s.accounts then s.(counter := counter)
      else
        var stored := StrNCpy(Repeat<Byte>(0, PASS_MAX), password, passLen + 1);
        State(s.accounts[name := Account(stored, counter)], counter)
    case Login(_, _) => s
    case Delete(uname, password) =>
      if Refusal(s, uname, password).Some? then s else s.(accounts := s.accounts - {NameOf(uname)})
    case Update(uname, password, newPassLen, newPassword) =>
      if Refusal(s, uname, password).Some? then s
      else
        var account := s.accounts[NameOf(uname)];
        var stored := StrNCpy(account.password, newPassword, newPassLen + 1);
        s.(accounts := s.accounts[NameOf(uname) := account.(password := stored)])
  }
}
