/** Whole runs of the account service: it agrees with a map from names to passwords, and session numbers are not
    given twice. */
module AccountRuns {
  import opened Accounts
  import opened Names
  import opened Options
  import opened Sequences

  // ----- What a copy keeps of a string -----

  lemma {:induction false} StrNLenMin(mem: seq<Byte>, n: nat, m: nat)
    requires n <= m
    ensures StrNLen(mem, n) == if StrNLen(mem, m) < n then StrNLen(mem, m) else n
  {
    if n > 0 && mem != [] && mem[0] != 0 {
      StrNLenMin(mem[1..], n - 1, m - 1);
    }
  }

  /** A new account's name or password is the string of the packet if and only if the length covers it. */
  lemma NewFieldIff(src: seq<Byte>, n: nat)
    requires n <= |src|
    ensures CStr(StrNCpy(Repeat<Byte>(0, |src|), src, n), |src|) == CStr(src, |src|) <==> StrNLen(src, |src|) <= n
  {
    CStrLength(src, |src|);
    hide *;
    CopyToZeros(src, n);
    StrNLenMin(src, n, |src|);
    SamePrefix(src, StrNLen(src, n), StrNLen(src, |src|));
  }

  lemma CStrLength(mem: seq<Byte>, n: nat)
    ensures StrNLen(mem, n) <= |mem| && CStr(mem, n) == mem[..StrNLen(mem, n)]
  {
  }

  lemma SamePrefix<A>(s: seq<A>, k: nat, l: nat)
    requires k <= |s| && l <= |s|
    ensures s[..k] == s[..l] <==> k == l
  {
    assert |s[..k]| == k && |s[..l]| == l;
  }

  lemma CopyToZeros(src: seq<Byte>, n: nat)
    requires n <= |src|
    ensures CStr(StrNCpy(Repeat<Byte>(0, |src|), src, n), |src|) == src[..StrNLen(src, n)]
  {
    hide StrNLen;
    var m, k := |src|, StrNLen(src, n);
    var r := StrNCpy(Repeat<Byte>(0, m), src, n);
    assert r == src[..k] + Repeat<Byte>(0, n - k) + Repeat<Byte>(0, m)[n..];
    assert forall i :: 0 <= i < k ==> r[i] == src[i];
    assert k < n ==> r[k] == Repeat<Byte>(0, n - k)[0];
    assert n <= k < m ==> r[k] == Repeat<Byte>(0, m)[k];
    StrNLenIs(r, m, k);
  }

  lemma {:induction false} CStrSplit(mem: seq<Byte>, n: nat, m: nat)
    requires n <= m && n <= |mem| && 0 !in mem[..n]
    ensures CStr(mem, m) == mem[..n] + CStr(mem[n..], m - n)
  {
    var k := StrNLen(mem[n..], m - n);
    assert forall i :: 0 <= i < n ==> mem[i] == mem[..n][i];
    assert forall i :: n <= i < n + k ==> mem[i] == mem[n..][i - n];
    assert k < |mem[n..]| ==> mem[n + k] == mem[n..][k];
    StrNLenIs(mem, m, n + k);
  }

  /** The first n bytes of a field carry its NUL, or what is left of the old field happens to continue them. */
  predicate Covered(was: seq<Byte>, src: seq<Byte>, n: nat)
    requires n <= |src| == |was|
  {
    StrNLen(src, |src|) < n || CStr(was[n..], |src| - n) == CStr(src[n..], |src| - n)
  }

  /** An updated password is the string of the packet if and only if its NUL is copied too, or what is left of the
      old password happens to continue it. */
  lemma UpdatedFieldIff(was: seq<Byte>, src: seq<Byte>, n: nat)
    requires n <= |src| == |was|
    ensures CStr(StrNCpy(was, src, n), |src|) == CStr(src, |src|) <==> Covered(was, src, n)
  {
    var m := |src|;
    hide StrNLen, CStr, StrNCpy;
    StrNLenMin(src, n, m);
    if StrNLen(src, m) < n {
      CopyWithNul(was, src, n);
    } else {
      CopyCut(was, src, n);
      CStrSplit(src, n, m);
      SameRest(src[..n], CStr(was[n..], m - n), CStr(src[n..], m - n));
    }
  }

  lemma CoveredWhole(was: seq<Byte>, src: seq<Byte>)
    requires |src| == |was|
    ensures Covered(was, src, |src|)
  {
    hide StrNLen, CStr;
    assert was[|src|..] == src[|src|..] == [];
  }

  /** An update stores the packet's string over every old password if and only if its NUL is copied too, or the whole
      field is. */
  lemma UpdateStoresIff(src: seq<Byte>, n: nat)
    requires n <= |src|
    ensures StrNLen(src, |src|) < n || n == |src| <==>
      forall was :: |was| == |src| ==> CStr(StrNCpy(was, src, n), |src|) == CStr(src, |src|)
  {
    hide StrNCpy, StrNLen, CStr;
    if StrNLen(src, |src|) < n || n == |src| {
      forall was: seq<Byte> | |was| == |src| ensures CStr(StrNCpy(was, src, n), |src|) == CStr(src, |src|) {
        CoveredWhole(was, src);
        UpdatedFieldIff(was, src, n);
      }
    } else {
      var was := SpoilingPassword(src, n);
    }
  }

  lemma SpoilingPassword(src: seq<Byte>, n: nat) returns (was: seq<Byte>)
    requires n < |src| && StrNLen(src, |src|) >= n
    ensures |was| == |src| && CStr(StrNCpy(was, src, n), |src|) != CStr(src, |src|)
  {
    var m := |src|;
    was := Repeat<Byte>(if src[n] == 0 then 1 else 0, m);
    assert was[n..][0] == was[n] && src[n..][0] == src[n];
    hide *;
    CStrUnfold(was[n..], m - n);
    CStrUnfold(src[n..], m - n);
    UpdatedFieldIff(was, src, n);
  }

  lemma CopyWithNul(was: seq<Byte>, src: seq<Byte>, n: nat)
    requires n <= |src| == |was| && StrNLen(src, n) == StrNLen(src, |src|) < n
    ensures CStr(StrNCpy(was, src, n), |src|) == CStr(src, |src|)
  {
    hide StrNLen;
    var m, k := |src|, StrNLen(src, n);
    var r := StrNCpy(was, src, n);
    assert forall i :: 0 <= i < k ==> r[i] == src[i];
    assert r[k] == 0;
    StrNLenIs(r, m, k);
    assert CStr(r, m) == src[..k];
  }

  lemma CopyCut(was: seq<Byte>, src: seq<Byte>, n: nat)
    requires n <= |src| == |was| && StrNLen(src, n) == n
    ensures 0 !in src[..n]
    ensures CStr(StrNCpy(was, src, n), |src|) == src[..n] + CStr(was[n..], |src| - n)
  {
    hide StrNLen;
    var r := StrNCpy(was, src, n);
    assert r[..n] == src[..n] && r[n..] == was[n..];
    CStrSplit(r, n, |src|);
  }

  // ----- The service agrees with a map from names to passwords -----

  type Passwords = map<Name, seq<Byte>>

  function Password(f: PassField): seq<Byte> {
    CStr(f, PASS_MAX)
  }

  function PasswordsOf(s: State): Passwords {
    map n | n in s.accounts :: Password(s.accounts[n].password)
  }

  /** The packet's lengths cover its strings. */
  predicate Covers(r: Request) {
    && Fits(r)
    && match r
       case Create(unameLen, uname, passLen, password) =>
         StrNLen(uname, UNAME_MAX) <= unameLen + 1 && StrNLen(password, PASS_MAX) <= passLen + 1
       case Login(_, _) => true
       case Delete(_, _) => true
       case Update(_, _, newPassLen, newPassword) =>
         StrNLen(newPassword, PASS_MAX) <= newPassLen || newPassLen + 1 == PASS_MAX
  }

  predicate Knows(p: Passwords, uname: NameField, password: PassField) {
    NameOf(uname) in p && p[NameOf(uname)] == Password(password)
  }

  predicate SimpleOk(p: Passwords, r: Request) {
    match r
    case Create(_, uname, _, _) => NameOf(uname) !in p
    case Login(uname, password) => Knows(p, uname, password)
    case Delete(uname, password) => Knows(p, uname, password)
    case Update(uname, password, _, _) => Knows(p, uname, password)
  }

  function SimpleAfter(p: Passwords, r: Request): Passwords {
    if !SimpleOk(p, r) then p
    else match r
      case Create(_, uname, _, password) => p[NameOf(uname) := Password(password)]
      case Login(_, _) => p
      case Delete(uname, _) => p - {NameOf(uname)}
      case Update(uname, _, _, newPassword) => p[NameOf(uname) := Password(newPassword)]
  }

  lemma NewAccountStrings(unameLen: nat, uname: NameField, passLen: nat, password: PassField)
    requires Covers(Create(unameLen, uname, passLen, password))
    ensures NameOf(NewName(uname, unameLen)) == NameOf(uname)
    ensures Password(StrNCpy(Repeat<Byte>(0, PASS_MAX), password, passLen + 1)) == Password(password)
  {
    NewFieldIff(uname, unameLen + 1);
    NewFieldIff(password, passLen + 1);
    hide StrNCpy, CStr, StrNLen;
  }

  lemma RefusalAgrees(s: State, uname: NameField, password: PassField)
    ensures Refusal(s, uname, password) == None <==> Knows(PasswordsOf(s), uname, password)
  {
    if NameOf(uname) in s.accounts {
      StrNCmpIsZeroIff(password, s.accounts[NameOf(uname)].password, PASS_MAX);
    }
  }

  lemma StepAgrees(s: State, r: Request)
    requires Covers(r)
    ensures !Answer(s, r).Failure? <==> SimpleOk(PasswordsOf(s), r)
    ensures PasswordsOf(After(s, r)) == SimpleAfter(PasswordsOf(s), r)
  {
    hide StrNCpy, StrNCmp, NameOf, NewName, Password, StrNLen;
    match r {
      case Create(unameLen, uname, passLen, password) =>
        NewAccountStrings(unameLen, uname, passLen, password);
      case Login(uname, password) =>
        RefusalAgrees(s, uname, password);
      case Delete(uname, password) =>
        RefusalAgrees(s, uname, password);
      case Update(uname, password, newPassLen, newPassword) =>
        RefusalAgrees(s, uname, password);
        if NameOf(uname) in s.accounts {
          UpdatedPassword(s.accounts[NameOf(uname)].password, newPassword, newPassLen);
        }
    }
  }

  lemma UpdatedPassword(was: PassField, newPassword: PassField, newPassLen: nat)
    requires newPassLen < PASS_MAX
    requires StrNLen(newPassword, PASS_MAX) <= newPassLen || newPassLen + 1 == PASS_MAX
    ensures Password(StrNCpy(was, newPassword, newPassLen + 1)) == Password(newPassword)
  {
    UpdateStoresIff(newPassword, newPassLen + 1);
    hide StrNCpy, CStr, StrNLen;
  }

  // ----- Every reply says what happened -----

  /** Login, deletion and update are refused for an unknown name and for a wrong password, with different codes, and
      are otherwise acknowledged each in its own way. */
  lemma ReplyIff(s: State, r: Request)
    requires !r.Create? && Fits(r)
    ensures INVALID_UNAME != INVALID_LOGIN && INVALID_LOGIN != SERVER_ERROR && SERVER_ERROR != INVALID_UNAME
    ensures var p, name, reply := PasswordsOf(s), NameOf(r.uname), Answer(s, r);
      && (reply == Failure(INVALID_UNAME) <==> name !in p)
      && (reply == Failure(INVALID_LOGIN) <==> name in p && p[name] != Password(r.password))
      && (reply.LoginAck? <==> r.Login? && Knows(p, r.uname, r.password))
      && (reply == Silent <==> r.Delete? && Knows(p, r.uname, r.password))
      && (reply == UpdateAck <==> r.Update? && Knows(p, r.uname, r.password))
  {
    RefusalAgrees(s, r.uname, r.password);
    hide NameOf, StrNCmp, Password, StrNCpy;
  }

  /** A creation is refused with its own code exactly when the name is there. */
  lemma CreateReplyIff(s: State, r: Request)
    requires r.Create? && Covers(r)
    ensures Answer(s, r) == Failure(SERVER_ERROR) <==> NameOf(r.uname) in PasswordsOf(s)
    ensures Answer(s, r).Ack? <==> NameOf(r.uname) !in PasswordsOf(s)
  {
    NewAccountStrings(r.unameLen, r.uname, r.passLen, r.password);
    hide NameOf, NewName, Password, StrNLen, StrNCpy;
  }

  /** An acknowledged creation stores the session number that is sent, and the password. */
  lemma AckIsStored(s: State, r: Request)
    requires r.Create? && Covers(r) && Answer(s, r).Ack?
    ensures NameOf(r.uname) in After(s, r).accounts
    ensures var account := After(s, r).accounts[NameOf(r.uname)];
      && account.sessionId == Answer(s, r).sessionId == After(s, r).counter
      && account.password == StrNCpy(Repeat<Byte>(0, PASS_MAX), r.password, r.passLen + 1)
      && Password(account.password) == Password(r.password)
  {
    NewAccountStrings(r.unameLen, r.uname, r.passLen, r.password);
    hide NameOf, NewName, Password, StrNLen, StrNCpy;
  }

  /** The number of users that a login is told is right if and only if there are fewer than 256. */
  lemma LoginCountIff(s: State, r: Request)
    requires r.Login? && Answer(s, r).LoginAck?
    ensures var count := Answer(s, r).numUsers;
      count < 256 && (|s.accounts| - count) % 256 == 0 && (count == |s.accounts| <==> |s.accounts| < 256)
  {
    hide NameOf, StrNCmp;
  }

  /** The account a request is about. */
  function Subject(r: Request): Name
    requires Fits(r)
  {
    if r.Create? then NameOf(NewName(r.uname, r.unameLen)) else NameOf(r.uname)
  }

  /** A request touches no account but its own, a refused one and a login none at all, and no session number of an
      account that stays. */
  lemma OthersUntouched(s: State, r: Request, name: Name)
    requires Fits(r)
    ensures name != Subject(r) || Answer(s, r).Failure? || r.Login? ==>
      && (name in s.accounts <==> name in After(s, r).accounts)
      && (name in s.accounts ==> s.accounts[name] == After(s, r).accounts[name])
    ensures name in s.accounts && name in After(s, r).accounts ==>
      s.accounts[name].sessionId == After(s, r).accounts[name].sessionId
    ensures After(s, r).counter == if r.Create? then (s.counter + 1) % UINT64 else s.counter
  {
    hide NameOf, NewName, StrNCmp, StrNCpy;
  }

  // ----- When an acknowledged update is not honoured -----

  lemma LoginAnswer(s: State, uname: NameField, password: PassField)
    requires NameOf(uname) in s.accounts
    ensures Answer(s, Login(uname, password)) ==
      if Password(password) == Password(s.accounts[NameOf(uname)].password) then LoginAck(|s.accounts| % UINT8)
      else Failure(INVALID_LOGIN)
  {
    StrNCmpIsZeroIff(password, s.accounts[NameOf(uname)].password, PASS_MAX);
    hide NameOf, StrNCmp;
  }

  lemma AfterUpdate(s: State, r: Request)
    requires r.Update? && Fits(r) && Answer(s, r) == UpdateAck
    ensures var n := NameOf(r.uname);
      && n in s.accounts && n in After(s, r).accounts
      && After(s, r).accounts[n].password == StrNCpy(s.accounts[n].password, r.newPassword, r.newPassLen + 1)
  {
    hide NameOf, StrNCmp, StrNCpy;
  }

  /** After an acknowledged update the new password is accepted if and only if its NUL was copied, or the rest of the
      old password continues it. */
  lemma UpdateThenLoginIff(s: State, r: Request)
    requires r.Update? && Fits(r) && Answer(s, r) == UpdateAck
    ensures NameOf(r.uname) in s.accounts
    ensures Answer(After(s, r), Login(r.uname, r.newPassword)).LoginAck? <==>
      Covered(s.accounts[NameOf(r.uname)].password, r.newPassword, r.newPassLen + 1)
  {
    AfterUpdate(s, r);
    LoginAckIff(After(s, r), r.uname, r.newPassword);
    UpdatedPasswordIff(s.accounts[NameOf(r.uname)].password, r.newPassword, r.newPassLen + 1);
    hide StrNCpy, Password, Covered, After, Answer, Fits, StrNCmp, NameOf;
  }

  lemma LoginAckIff(s: State, uname: NameField, password: PassField)
    requires NameOf(uname) in s.accounts
    ensures Answer(s, Login(uname, password)).LoginAck? <==>
      Password(password) == Password(s.accounts[NameOf(uname)].password)
  {
    hide Answer, Password, NameOf;
    LoginAnswer(s, uname, password);
  }

  lemma UpdatedPasswordIff(was: PassField, newPassword: PassField, n: nat)
    requires n <= PASS_MAX
    ensures Password(newPassword) == Password(StrNCpy(was, newPassword, n)) <==> Covered(was, newPassword, n)
  {
    hide StrNCpy, CStr, Covered;
    UpdatedFieldIff(was, newPassword, n);
  }

  /** Every account's acknowledged updates to this password are honoured if and only if the length covers it. */
  lemma UpdateHonouredIff(newPassLen: nat, newPassword: PassField)
    requires newPassLen < PASS_MAX
    ensures StrNLen(newPassword, PASS_MAX) <= newPassLen || newPassLen + 1 == PASS_MAX <==>
      forall s, uname, password :: Answer(s, Update(uname, password, newPassLen, newPassword)) == UpdateAck ==>
        Answer(After(s, Update(uname, password, newPassLen, newPassword)), Login(uname, newPassword)).LoginAck?
  {
    hide NameOf, StrNCmp, StrNCpy, StrNLen, CStr, After, Answer;
    if StrNLen(newPassword, PASS_MAX) <= newPassLen || newPassLen + 1 == PASS_MAX {
      forall s, uname, password | Answer(s, Update(uname, password, newPassLen, newPassword)) == UpdateAck
        ensures Answer(After(s, Update(uname, password, newPassLen, newPassword)), Login(uname, newPassword)).LoginAck?
      {
        AfterUpdate(s, Update(uname, password, newPassLen, newPassword));
        UpdatedPassword(s.accounts[NameOf(uname)].password, newPassword, newPassLen);
        LoginAnswer(After(s, Update(uname, password, newPassLen, newPassword)), uname, newPassword);
      }
    } else {
      var was := SpoilingPassword(newPassword, newPassLen + 1);
      var s, uname := OneAccount(was);
      UpdateAcknowledged(s, uname, was, newPassLen, newPassword);
      AfterUpdate(s, Update(uname, was, newPassLen, newPassword));
      LoginAnswer(After(s, Update(uname, was, newPassLen, newPassword)), uname, newPassword);
    }
  }

  /** A service with one account, of the empty name. */
  lemma OneAccount(password: PassField) returns (s: State, uname: NameField)
    ensures NameOf(uname) in s.accounts && s.accounts[NameOf(uname)].password == password
    ensures SessionsDistinct(s)
  {
    uname := [0, 0, 0, 0, 0, 0, 0, 0, 0, 0];
    s := State(map[NameOf(uname) := Account(password, 1)], 1);
  }

  lemma UpdateAcknowledged(s: State, uname: NameField, password: PassField, newPassLen: nat, newPassword: PassField)
    requires newPassLen < PASS_MAX
    requires NameOf(uname) in s.accounts && s.accounts[NameOf(uname)].password == password
    ensures Answer(s, Update(uname, password, newPassLen, newPassword)) == UpdateAck
  {
    StrNCmpIsZeroIff(password, password, PASS_MAX);
    hide NameOf, StrNCmp;
  }

  /** Changing "cc" to "ab" with a length of 0 is acknowledged, stores "ac", and then neither password is accepted. */
  lemma ShortLengthLocksOut() returns (s: State, r: Request)
    ensures SessionsDistinct(s) && r.Update? && Fits(r) && Answer(s, r) == UpdateAck
    ensures Answer(After(s, r), Login(r.uname, r.newPassword)) == Failure(INVALID_LOGIN)
    ensures Answer(After(s, r), Login(r.uname, r.password)) == Failure(INVALID_LOGIN)
  {
    var was: PassField, changed: PassField := [99, 99] + Repeat<Byte>(0, 23), [97, 98] + Repeat<Byte>(0, 23);
    ShortLengthMixesPasswords();
    StrNLenIs(was, PASS_MAX, 2);
    StrNLenIs(changed, PASS_MAX, 2);
    assert Password(was)[0] == 99 && Password(changed)[1] == 98;
    var uname;
    s, uname := OneAccount(was);
    r := Update(uname, was, 0, changed);
    hide NameOf, StrNCmp, StrNCpy, StrNLen, CStr, After, Answer;
    UpdateAcknowledged(s, uname, was, 0, changed);
    AfterUpdate(s, r);
    LoginAnswer(After(s, r), uname, changed);
    LoginAnswer(After(s, r), uname, was);
  }

  /** Updating the password "cc" to "ab" with a length of 0 leaves "ac". */
  lemma ShortLengthMixesPasswords()
    ensures var was, src: PassField := [99, 99] + Repeat<Byte>(0, 23), [97, 98] + Repeat<Byte>(0, 23);
      CStr(StrNCpy(was, src, 0 + 1), PASS_MAX) == [97, 99]
  {
    var was, src := [99, 99] + Repeat<Byte>(0, 23), [97, 98] + Repeat<Byte>(0, 23);
    StrNLenIs(src, 1, 1);
    CopyCut(was, src, 1);
    StrNLenIs(was[1..], PASS_MAX - 1, 1);
    assert CStr(was[1..], PASS_MAX - 1) == [99];
  }

  predicate AllCover(rs: seq<Request>) {
    forall i :: 0 <= i < |rs| ==> Covers(rs[i])
  }

  predicate AllFit(rs: seq<Request>) {
    forall i :: 0 <= i < |rs| ==> Fits(rs[i])
  }

  function Answers(s: State, rs: seq<Request>): (replies: seq<Reply>)
    requires AllFit(rs)
    ensures |replies| == |rs|
    decreases |rs|
  {
    if rs == [] then [] else [Answer(s, rs[0])] + Answers(After(s, rs[0]), rs[1..])
  }

  function AfterAll(s: State, rs: seq<Request>): State
    requires AllFit(rs)
    decreases |rs|
  {
    if rs == [] then s else AfterAll(After(s, rs[0]), rs[1..])
  }

  function SimpleAfterAll(p: Passwords, rs: seq<Request>): Passwords
    decreases |rs|
  {
    if rs == [] then p else SimpleAfterAll(SimpleAfter(p, rs[0]), rs[1..])
  }

  /** Over every run a request succeeds exactly when it succeeds on the map of names to passwords as it then is. */
  lemma {:induction false} RunAgrees(s: State, rs: seq<Request>, i: nat)
    requires AllCover(rs) && i <= |rs|
    ensures PasswordsOf(AfterAll(s, rs[..i])) == SimpleAfterAll(PasswordsOf(s), rs[..i])
    ensures i < |rs| ==> (Answers(s, rs)[i].Failure? <==> !SimpleOk(SimpleAfterAll(PasswordsOf(s), rs[..i]), rs[i]))
    decreases |rs|
  {
    hide PasswordsOf, Answer, After, SimpleOk, SimpleAfter, Covers, Fits;
    CoverFits(rs);
    if rs != [] {
      StepAgrees(s, rs[0]);
      if i > 0 {
        RunAgrees(After(s, rs[0]), rs[1..], i - 1);
        assert rs[..i][1..] == rs[1..][..i - 1];
      }
    }
  }

  lemma CoverFits(rs: seq<Request>)
    requires AllCover(rs)
    ensures AllFit(rs)
  {
  }

  // ----- Session numbers -----

  /** Live accounts have different session numbers, none above the counter. */
  ghost predicate SessionsDistinct(s: State) {
    s.counter < UINT64 && DistinctUpTo(s.accounts, s.counter)
  }

  ghost predicate DistinctUpTo(accounts: map<Name, Account>, top: nat) {
    && (forall n :: n in accounts ==> 1 <= accounts[n].sessionId <= top)
    && (forall n, n' :: n in accounts && n' in accounts && n != n' ==> accounts[n].sessionId != accounts[n'].sessionId)
  }

  lemma DistinctAdd(accounts: map<Name, Account>, top: nat, name: Name, account: Account)
    requires DistinctUpTo(accounts, top) && account.sessionId == top + 1
    ensures DistinctUpTo(accounts[name := account], top + 1)
  {
  }

  lemma DistinctAbove(accounts: map<Name, Account>, top: nat)
    requires DistinctUpTo(accounts, top)
    ensures DistinctUpTo(accounts, top + 1)
  {
  }

  lemma DistinctDrop(accounts: map<Name, Account>, top: nat, name: Name)
    requires DistinctUpTo(accounts, top)
    ensures DistinctUpTo(accounts - {name}, top)
  {
  }

  lemma DistinctUpdate(accounts: map<Name, Account>, top: nat, name: Name, account: Account)
    requires DistinctUpTo(accounts, top) && name in accounts && account.sessionId == accounts[name].sessionId
    ensures DistinctUpTo(accounts[name := account], top)
  {
  }

  /** A creation, accepted or refused, keeps that exactly when the counter does not wrap around. */
  lemma CreateKeepsSessionsIff(s: State, r: Request)
    requires SessionsDistinct(s) && Fits(r) && r.Create?
    ensures SessionsDistinct(After(s, r)) <==> s.counter + 1 < UINT64
  {
    hide NameOf, NewName, StrNCpy;
    var name, s' := NameOf(NewName(r.uname, r.unameLen)), After(s, r);
    if s.counter + 1 < UINT64 {
      hide DistinctUpTo;
      if name in s.accounts {
        DistinctAbove(s.accounts, s.counter);
      } else {
        DistinctAdd(s.accounts, s.counter, name, s'.accounts[name]);
      }
    } else {
      assert name in s'.accounts && s'.counter == 0;
    }
  }

  lemma StepKeepsSessions(s: State, r: Request)
    requires SessionsDistinct(s) && Fits(r) && (r.Create? ==> s.counter + 1 < UINT64)
    ensures SessionsDistinct(After(s, r))
    ensures After(s, r).counter == s.counter + if r.Create? then 1 else 0
    ensures Answer(s, r).Ack? ==> r.Create? && Answer(s, r).sessionId == s.counter + 1
  {
    hide NameOf, NewName, StrNCpy, StrNCmp, DistinctUpTo;
    match r {
      case Create(_, _, _, _) =>
        CreateKeepsSessionsIff(s, r);
      case Login(_, _) =>
      case Delete(uname, _) =>
        DistinctDrop(s.accounts, s.counter, NameOf(uname));
      case Update(uname, _, _, _) =>
        if NameOf(uname) in After(s, r).accounts {
          DistinctUpdate(s.accounts, s.counter, NameOf(uname), After(s, r).accounts[NameOf(uname)]);
        }
    }
  }

  /** The number of creations among the requests. */
  function Creations(rs: seq<Request>): nat {
    if rs == [] then 0 else (if rs[0].Create? then 1 else 0) + Creations(rs[1..])
  }

  lemma {:induction false} RunKeepsSessions(s: State, rs: seq<Request>)
    requires SessionsDistinct(s) && AllFit(rs) && s.counter + Creations(rs) < UINT64
    ensures SessionsDistinct(AfterAll(s, rs))
    ensures AfterAll(s, rs).counter == s.counter + Creations(rs)
    decreases |rs|
  {
    if rs != [] {
      StepKeepsSessions(s, rs[0]);
      hide SessionsDistinct, After, Answer, Fits;
      RunKeepsSessions(After(s, rs[0]), rs[1..]);
    }
  }

  lemma AnswersUnfold(s: State, rs: seq<Request>, i: nat)
    requires AllFit(rs) && i < |rs|
    ensures Fits(rs[0]) && AllFit(rs[1..])
    ensures Answers(s, rs)[i] == if i == 0 then Answer(s, rs[0]) else Answers(After(s, rs[0]), rs[1..])[i - 1]
    ensures Creations(rs) == (if rs[0].Create? then 1 else 0) + Creations(rs[1..])
  {
    hide Answer, After, Fits;
  }

  /** Session numbers that are sent out only grow, so that a deleted account's number is not given again either. */
  lemma {:induction false} SessionsGrow(s: State, rs: seq<Request>, i: nat, j: nat)
    requires SessionsDistinct(s) && AllFit(rs) && s.counter + Creations(rs) < UINT64 && i < j < |rs|
    ensures var replies := Answers(s, rs);
      replies[i].Ack? && replies[j].Ack? ==> s.counter < replies[i].sessionId < replies[j].sessionId
    decreases |rs|
  {
    hide *;
    AnswersUnfold(s, rs, i);
    AnswersUnfold(s, rs, j);
    StepKeepsSessions(s, rs[0]);
    if i > 0 {
      SessionsGrow(After(s, rs[0]), rs[1..], i - 1, j - 1);
    } else {
      AckAbove(After(s, rs[0]), rs[1..], j - 1);
    }
  }

  lemma {:induction false} AckAbove(s: State, rs: seq<Request>, i: nat)
    requires SessionsDistinct(s) && AllFit(rs) && s.counter + Creations(rs) < UINT64 && i < |rs|
    ensures Answers(s, rs)[i].Ack? ==> s.counter < Answers(s, rs)[i].sessionId
    decreases |rs|
  {
    hide *;
    AnswersUnfold(s, rs, i);
    StepKeepsSessions(s, rs[0]);
    if i > 0 {
      AckAbove(After(s, rs[0]), rs[1..], i - 1);
    }
  }
}
