/** OIDC logins: one-time login transactions, identity bindings and sessions of one organisation. */
module OidcLogin {
  import opened Primitives
  import opened Text
  import opened Sorting

  type Id = nat
  type Time = int

  datatype User = User(id: Id, email: Text, active: bool)

  datatype LoginTransaction = LoginTransaction(
    id: Id, issuer: Text, tokenHash: Text, stateHash: Text, expiresAt: Time, consumedAt: Option<Time>)

  datatype Identity = Identity(issuer: Text, subject: Text, userId: Id, email: Text, createdAt: Time, lastLoginAt: Time)

  /** `transaction` is the login transaction a session came from; the row itself does not hold it. */
  datatype Session = Session(userId: Id, transaction: Id)

  datatype Store = Store(users: seq<User>, transactions: seq<LoginTransaction>, identities: seq<Identity>,
      sessions: seq<Session>)

  datatype Claims = Claims(issuer: Text, subject: Text, email: Option<Text>, emailVerified: bool)

  // ---------- what each statement does ----------

  predicate IsActive(t: LoginTransaction, at: Time) {
    t.consumedAt == None && t.expiresAt > at
  }

  function BeginLogin(s: Store, t: LoginTransaction, at: Time): (r: Store) {
    var kept := Filter(s.transactions, (x: LoginTransaction) => x.expiresAt > at);
    if exists x | x in kept :: x.tokenHash == t.tokenHash then s else s.(transactions := kept + [t])
  }

  function ActiveTransaction(s: Store, tokenHash: Text, at: Time): (r: Option<LoginTransaction>) {
    var k := IndexOf(s.transactions, (t: LoginTransaction) => t.tokenHash == tokenHash && IsActive(t, at));
    if k < |s.transactions| then Some(s.transactions[k]) else None
  }

  function ConsumableAt(s: Store, id: Id, at: Time): (k: nat)
    ensures k <= |s.transactions|
    ensures k < |s.transactions| ==> s.transactions[k].id == id && IsActive(s.transactions[k], at)
    ensures forall i | 0 <= i < k :: s.transactions[i].id != id || !IsActive(s.transactions[i], at)
  {
    IndexOf(s.transactions, (t: LoginTransaction) => t.id == id && IsActive(t, at))
  }

  function Consume(s: Store, id: Id, at: Time): (r: Store) {
    var k := ConsumableAt(s, id, at);
    if k < |s.transactions| then s.(transactions := s.transactions[k := s.transactions[k].(consumedAt := Some(at))])
        else s
  }

  function UserAt(s: Store, id: Id): (r: Option<User>)
    ensures r.Some? ==> r.value in s.users && r.value.id == id
  {
    var k := IndexOf(s.users, (u: User) => u.id == id);
    if k < |s.users| then Some(s.users[k]) else None
  }

  function IdentityAt(s: Store, issuer: Text, subject: Text): (k: nat)
    ensures k <= |s.identities|
    ensures k < |s.identities| ==> s.identities[k].issuer == issuer && s.identities[k].subject == subject
    ensures forall i | 0 <= i < k :: s.identities[i].issuer != issuer || s.identities[i].subject != subject
  {
    IndexOf(s.identities, (i: Identity) => i.issuer == issuer && i.subject == subject)
  }

  function UserByIdentity(s: Store, issuer: Text, subject: Text): (r: Option<User>) {
    var k := IdentityAt(s, issuer, subject);
    if k < |s.identities| then UserAt(s, s.identities[k].userId) else None
  }

  /** Stored emails are compared without regard to letter case. */
  function UserByEmail(s: Store, email: Text): (r: Option<User>)
    ensures r.Some? ==> r.value in s.users && Lower(r.value.email) == Lower(Lower(Trim(email)))
  {
    var k := IndexOf(s.users, (u: User) => Lower(u.email) == Lower(Lower(Trim(email))));
    if k < |s.users| then Some(s.users[k]) else None
  }

  function IdentityForUser(s: Store, issuer: Text, userId: Id): (r: Option<Identity>) {
    var k := IndexOf(s.identities, (i: Identity) => i.issuer == issuer && i.userId == userId);
    if k < |s.identities| then Some(s.identities[k]) else None
  }

  /** Whether a unique index refuses the row. */
  predicate Collides(s: Store, i: Identity) {
    exists x | x in s.identities :: x.issuer == i.issuer && (x.subject == i.subject || x.userId == i.userId)
  }

  /** `INSERT OR IGNORE` */
  function Bind(s: Store, i: Identity): (r: Store) {
    if Collides(s, i) then s else s.(identities := s.identities + [i])
  }

  function Touch(s: Store, issuer: Text, subject: Text, at: Time): (r: Store) {
    var k := IdentityAt(s, issuer, subject);
    if k < |s.identities| then s.(identities := s.identities[k := s.identities[k].(lastLoginAt := at)]) else s
  }

  function CreateSession(s: Store, userId: Id, transaction: Id): (r: Store) {
    s.(sessions := s.sessions + [Session(userId, transaction)])
  }

  function SetActive(s: Store, userId: Id, active: bool): (r: Store) {
    s.(users := Map((u: User) => if u.id == userId then u.(active := active) else u, s.users))
  }

  /** A new user, unless the id or, whatever its letter case, the e-mail is taken. */
  function AddUser(s: Store, user: User): (r: Store) {
    if exists u | u in s.users :: u.id == user.id || Lower(u.email) == Lower(user.email) then s
    else s.(users := s.users + [user])
  }

  // ---------- resolving a user ----------

  datatype Resolution = Resolution(store: Store, user: Option<Id>)

  function NewIdentity(claims: Claims, user: User, at: Time): (r: Identity)
    requires claims.email.Some?
  {
    Identity(claims.issuer, claims.subject, user.id, Lower(Trim(claims.email.value)), at, at)
  }

  /** The user the claims stand for, binding the identity the first time; a refusal leaves the store as it was. */
  function Resolve(s: Store, claims: Claims, at: Time): (r: Resolution) {
    match UserByIdentity(s, claims.issuer, claims.subject)
    case Some(bound) =>
      if bound.active then Resolution(Touch(s, claims.issuer, claims.subject, at), Some(bound.id))
          else Resolution(s, None)
    case None =>
      if claims.email == None || claims.email.value == [] || !claims.emailVerified then Resolution(s, None)
      else
        match UserByEmail(s, claims.email.value)
        case None => Resolution(s, None)
        case Some(user) =>
          if !user.active then Resolution(s, None)
          else
            var existing := IdentityForUser(s, claims.issuer, user.id);
            if existing.Some? && existing.value.subject != claims.subject then Resolution(s, None)
            else
              var after := Bind(s, NewIdentity(claims, user, at));
              var newlyBound := UserByIdentity(after, claims.issuer, claims.subject);
              if newlyBound == None || newlyBound.value.id != user.id then Resolution(s, None)
              else Resolution(after, Some(newlyBound.value.id))
  }

  /** The repository, whose methods change rows as the statements do. */
  class Repository {
    var users: seq<User>
    var transactions: seq<LoginTransaction>
    var identities: seq<Identity>
    var sessions: seq<Session>

    function Contents(): (s: Store)
      reads this
    {
      Store(users, transactions, identities, sessions)
    }

    constructor (users: seq<User>)
      ensures Contents() == Store(users, [], [], [])
    {
      this.users := users;
      transactions, identities, sessions := [], [], [];
    }

    method BeginOidcLogin(t: LoginTransaction, at: Time)
      modifies this
      ensures Contents() == BeginLogin(old(Contents()), t, at)
    {
      var before := transactions;
      transactions := Filter(transactions, (x: LoginTransaction) => x.expiresAt > at);
      if exists x | x in transactions :: x.tokenHash == t.tokenHash {
        transactions := before;
      } else {
        transactions := transactions + [t];
      }
    }

    method ConsumeLoginTransaction(id: Id, at: Time) returns (changed: bool)
      modifies this
      ensures Contents() == Consume(old(Contents()), id, at)
      ensures changed <==> exists t | t in old(transactions) :: t.id == id && IsActive(t, at)
    {
      var k := ConsumableAt(Contents(), id, at);
      changed := k < |transactions|;
      if changed {
        transactions := transactions[k := transactions[k].(consumedAt := Some(at))];
      }
    }

    method BindIdentity(i: Identity) returns (changed: bool)
      modifies this
      ensures Contents() == Bind(old(Contents()), i)
      ensures changed <==> !Collides(old(Contents()), i)
    {
      changed := !Collides(Contents(), i);
      if changed {
        identities := identities + [i];
      }
    }

    method TouchIdentity(issuer: Text, subject: Text, at: Time) returns (changed: bool)
      modifies this
      ensures Contents() == Touch(old(Contents()), issuer, subject, at)
      ensures changed <==> exists i | i in old(identities) :: i.issuer == issuer && i.subject == subject
    {
      var k := IdentityAt(Contents(), issuer, subject);
      changed := k < |identities|;
      if changed {
        identities := identities[k := identities[k].(lastLoginAt := at)];
      }
    }

    /** One database transaction; None where access is denied and the transaction rolls back. */
    method ResolvePreprovisionedUser(claims: Claims, at: Time) returns (user: Option<Id>)
      modifies this
      ensures Resolution(Contents(), user) == Resolve(old(Contents()), claims, at)
    {
      hide Lower, Trim, Bind, Touch, UserByIdentity, UserByEmail, IdentityForUser;
      var bound := UserByIdentity(Contents(), claims.issuer, claims.subject);
      if bound.Some? {
        if !bound.value.active {
          return None;
        }
        var touched := TouchIdentity(claims.issuer, claims.subject, at);
        return Some(bound.value.id);
      }
      if claims.email == None || claims.email.value == [] || !claims.emailVerified {
        return None;
      }
      var found := UserByEmail(Contents(), claims.email.value);
      if found == None || !found.value.active {
        return None;
      }
      var existing := IdentityForUser(Contents(), claims.issuer, found.value.id);
      if existing.Some? && existing.value.subject != claims.subject {
        return None;
      }
      var before := identities;
      ghost var start := Contents();
      var isNew := BindIdentity(NewIdentity(claims, found.value, at));
      var newlyBound := UserByIdentity(Contents(), claims.issuer, claims.subject);
      if newlyBound == None || newlyBound.value.id != found.value.id {
        BindOnlyBinds(start, NewIdentity(claims, found.value, at));
        identities := before;
        return None;
      }
      return Some(newlyBound.value.id);
    }

    method CreateSessionFor(userId: Id, transaction: Id)
      modifies this
      ensures Contents() == CreateSession(old(Contents()), userId, transaction)
    {
      sessions := sessions + [Session(userId, transaction)];
    }

    method CreateUser(user: User) returns (ok: bool)
      modifies this
      ensures Contents() == AddUser(old(Contents()), user)
      ensures ok <==> forall u | u in old(users) :: u.id != user.id && Lower(u.email) != Lower(user.email)
    {
      ok := !exists u | u in users :: u.id == user.id || Lower(u.email) == Lower(user.email);
      if ok {
        users := users + [user];
      }
    }

    method SetUserStatus(userId: Id, active: bool)
      modifies this
      ensures Contents() == SetActive(old(Contents()), userId, active)
    {
      users := Map((u: User) => if u.id == userId then u.(active := active) else u, users);
    }
  }

  lemma BindOnlyBinds(s: Store, i: Identity)
    ensures Bind(s, i).(identities := s.identities) == s
  {
  }

  // ---------- logins in progress ----------

  /** Where a login stands. A login that crashed takes no further step. */
  datatype Login =
    | Loaded(issuer: Text, transaction: Id, at: Time)
    | Consumed(issuer: Text, transaction: Id, at: Time)
    | Resolved(transaction: Id, userId: Id)
    | Done(transaction: Id)
    | Refused

  datatype State = State(store: Store, nextId: Id, logins: seq<Login>)

  datatype Step =
    | Begin(issuer: Text, tokenHash: Text, stateHash: Text, expiresAt: Time, at: Time)
    | Load(issuer: Text, tokenHash: Text, stateHash: Text, at: Time)
    | ConsumeStep(login: nat)
    | ResolveStep(login: nat, claims: Claims)
    | SessionStep(login: nat)
    | StatusStep(userId: Id, active: bool)
    | AddUserStep(user: User)

  predicate ValidClaims(claims: Claims, issuer: Text) {
    && claims.issuer == issuer && 0 < |Trim(claims.subject)| <= 512
    && (claims.email.Some? ==> |claims.email.value| <= 320)
  }

  function WithLogin(s: State, login: nat, l: Login): (r: State)
    requires login < |s.logins|
  {
    s.(logins := s.logins[login := l])
  }

  /** One step of any login, of a new one, or of an administrator; new transactions get ids never used before. */
  function Next(s: State, step: Step): (r: State) {
    match step
    case Begin(issuer, tokenHash, stateHash, expiresAt, at) =>
      s.(store := BeginLogin(s.store, LoginTransaction(s.nextId, issuer, tokenHash, stateHash, expiresAt, None), at),
          nextId := s.nextId + 1)
    case Load(issuer, tokenHash, stateHash, at) =>
      var found := ActiveTransaction(s.store, tokenHash, at);
      if found == None || found.value.issuer != issuer || found.value.stateHash != stateHash
      then s.(logins := s.logins + [Refused])
      else s.(logins := s.logins + [Loaded(issuer, found.value.id, at)])
    case ConsumeStep(login) =>
      if login < |s.logins| && s.logins[login].Loaded? then
        var l := s.logins[login];
        if ConsumableAt(s.store, l.transaction, l.at) == |s.store.transactions| then WithLogin(s, login, Refused)
        else WithLogin(s.(store := Consume(s.store, l.transaction, l.at)), login,
            Consumed(l.issuer, l.transaction, l.at))
      else s
    case ResolveStep(login, claims) =>
      if login < |s.logins| && s.logins[login].Consumed? then
        var l := s.logins[login];
        if !ValidClaims(claims, l.issuer) then WithLogin(s, login, Refused)
        else
          var resolution := Resolve(s.store, claims.(subject := Trim(claims.subject)), l.at);
          WithLogin(s.(store := resolution.store), login,
                    if resolution.user == None then Refused else Resolved(l.transaction, resolution.user.value))
      else s
    case SessionStep(login) =>
      if login < |s.logins| && s.logins[login].Resolved? then
        var l := s.logins[login];
        WithLogin(s.(store := CreateSession(s.store, l.userId, l.transaction)), login, Done(l.transaction))
      else s
    case StatusStep(userId, active) => s.(store := SetActive(s.store, userId, active))
    case AddUserStep(user) => s.(store := AddUser(s.store, user))
  }

  function Run(s: State, steps: seq<Step>): (r: State)
    decreases |steps|
  {
    if steps == [] then s else Run(Next(s, steps[0]), steps[1..])
  }

  function Start(users: seq<User>): (r: State) {
    State(Store(users, [], [], []), 0, [])
  }

  // ---------- bindings stay one-to-one ----------

  /** Per issuer, no subject has two bindings and no user has two. */
  ghost predicate OneToOne(identities: seq<Identity>) {
    forall i, j | 0 <= i < j < |identities| && identities[i].issuer == identities[j].issuer ::
      identities[i].subject != identities[j].subject && identities[i].userId != identities[j].userId
  }

  /** The earlier bindings are all still there, to the same users; only their last login moves. */
  ghost predicate Keeps(before: seq<Identity>, after: seq<Identity>) {
    |before| <= |after| && forall i | 0 <= i < |before| :: after[i].(lastLoginAt := before[i].lastLoginAt) == before[i]
  }

  /** The claims made that binding now: its user is active and has the verified email. */
  ghost predicate Earned(s: Store, i: Identity, claims: Claims) {
    && claims.email.Some? && claims.emailVerified && i.issuer == claims.issuer && i.subject == claims.subject
    && i.email == Lower(Trim(claims.email.value))
    && exists u | u in s.users :: u.id == i.userId && u.active
        && Lower(u.email) == Lower(Lower(Trim(claims.email.value)))
  }

  /** What resolving may do: touch one binding, or add one that is earned, with the user it answers. */
  lemma ResolveBinds(s: Store, claims: Claims, at: Time)
    requires OneToOne(s.identities)
    ensures var r := Resolve(s, claims, at);
      && OneToOne(r.store.identities) && Keeps(s.identities, r.store.identities)
      && r.store == s.(identities := r.store.identities)
      && |r.store.identities| <= |s.identities| + 1
      && (r.user == None ==> r.store == s)
      && (|r.store.identities| == |s.identities| + 1 ==> Earned(s, r.store.identities[|s.identities|], claims))
      && (r.user.Some? ==> Answers(r.store, claims, r.user.value))
  {
    hide Lower, Trim;
  }

  /** The user is active and the claims' subject is bound to that user. */
  ghost predicate Answers(s: Store, claims: Claims, userId: Id) {
    && (exists u | u in s.users :: u.id == userId && u.active)
    && exists i | i in s.identities :: i.issuer == claims.issuer && i.subject == claims.subject && i.userId == userId
  }

  /** Whatever a step does, bindings stay one-to-one, none moves, and a new one is earned by verified claims. */
  lemma StepKeepsBindings(s: State, step: Step)
    requires OneToOne(s.store.identities)
    ensures var before, after := s.store.identities, Next(s, step).store.identities;
      && OneToOne(after) && Keeps(before, after) && |after| <= |before| + 1
      && (|after| == |before| + 1 ==>
            step.ResolveStep? && Earned(s.store, after[|before|], step.claims.(subject := Trim(step.claims.subject))))
  {
    hide Resolve, Trim, Lower, ValidClaims, BeginLogin, Consume, ActiveTransaction;
    if step.ResolveStep? && step.login < |s.logins| && s.logins[step.login].Consumed? {
      ResolveBinds(s.store, step.claims.(subject := Trim(step.claims.subject)), s.logins[step.login].at);
    }
    if step.Begin? {
      BeginKeepsRest(s.store, LoginTransaction(s.nextId, step.issuer, step.tokenHash, step.stateHash, step.expiresAt,
          None), step.at);
    }
    if step.ConsumeStep? && step.login < |s.logins| && s.logins[step.login].Loaded? {
      ConsumeKeepsRest(s.store, s.logins[step.login].transaction, s.logins[step.login].at);
    }
  }

  lemma BeginKeepsRest(s: Store, t: LoginTransaction, at: Time)
    ensures BeginLogin(s, t, at).(transactions := s.transactions) == s
  {
  }

  lemma ConsumeKeepsRest(s: Store, id: Id, at: Time)
    ensures Consume(s, id, at).(transactions := s.transactions) == s
  {
  }

  lemma KeepsTransitive(a: seq<Identity>, b: seq<Identity>, c: seq<Identity>)
    requires Keeps(a, b) && Keeps(b, c)
    ensures Keeps(a, c)
  {
    forall i | 0 <= i < |a| ensures c[i].(lastLoginAt := a[i].lastLoginAt) == a[i] {
      assert b[i].(lastLoginAt := a[i].lastLoginAt) == a[i] && c[i].(lastLoginAt := b[i].lastLoginAt) == b[i];
    }
  }

  /** Over every interleaving, bindings stay one-to-one and never move. */
  lemma {:induction false} BindingsNeverMove(s: State, steps: seq<Step>)
    requires OneToOne(s.store.identities)
    ensures OneToOne(Run(s, steps).store.identities) && Keeps(s.store.identities, Run(s, steps).store.identities)
    decreases |steps|
  {
    hide Next, OneToOne;
    if steps != [] {
      StepKeepsBindings(s, steps[0]);
      BindingsNeverMove(Next(s, steps[0]), steps[1..]);
      KeepsTransitive(s.store.identities, Next(s, steps[0]).store.identities, Run(s, steps).store.identities);
    }
  }

  /** The step at place n made that binding, from verified claims naming a user active at that moment. */
  ghost predicate EarnedDuring(s: State, steps: seq<Step>, i: Identity, n: int) {
    && 0 <= n < |steps| && steps[n].ResolveStep?
    && Earned(Run(s, steps[..n]).store, i, steps[n].claims.(subject := Trim(steps[n].claims.subject)))
  }

  lemma EarnedLater(s: State, steps: seq<Step>, i: Identity, n: nat)
    requires steps != [] && EarnedDuring(Next(s, steps[0]), steps[1..], i, n)
    ensures EarnedDuring(s, steps, i, n + 1)
  {
    hide Next, Earned;
    assert steps[..n + 1][0] == steps[0] && steps[..n + 1][1..] == steps[1..][..n];
  }

  lemma EarnedFirst(s: State, steps: seq<Step>, i: Identity)
    requires steps != [] && steps[0].ResolveStep?
    requires Earned(s.store, i, steps[0].claims.(subject := Trim(steps[0].claims.subject)))
    ensures EarnedDuring(s, steps, i, 0)
  {
    hide Next, Earned;
  }

  lemma EarnedIgnoresTouch(s: Store, i: Identity, j: Identity, claims: Claims)
    requires Earned(s, i, claims) && j.(lastLoginAt := i.lastLoginAt) == i
    ensures Earned(s, j, claims)
  {
    hide Trim, Lower;
    assert i.issuer == j.issuer && i.subject == j.subject && i.userId == j.userId;
  }

  /** Every binding a run adds was earned at one of its steps. */
  lemma {:induction false} AddedBindingsAreEarned(s: State, steps: seq<Step>, k: nat)
    requires OneToOne(s.store.identities)
    requires |s.store.identities| <= k < |Run(s, steps).store.identities|
    ensures exists n :: EarnedDuring(s, steps, Run(s, steps).store.identities[k], n)
    decreases |steps|
  {
    hide Next, OneToOne, Earned, EarnedDuring, Trim;
    var after := Next(s, steps[0]);
    var i := Run(s, steps).store.identities[k];
    StepKeepsBindings(s, steps[0]);
    BindingsNeverMove(after, steps[1..]);
    if k < |after.store.identities| {
      EarnedIgnoresTouch(s.store, after.store.identities[k], i,
          steps[0].claims.(subject := Trim(steps[0].claims.subject)));
      EarnedFirst(s, steps, i);
    } else {
      AddedBindingsAreEarned(after, steps[1..], k);
      var n :| EarnedDuring(after, steps[1..], i, n);
      EarnedPlace(after, steps[1..], i, n);
      EarnedLater(s, steps, i, n);
    }
  }

  lemma EarnedPlace(s: State, steps: seq<Step>, i: Identity, n: int)
    requires EarnedDuring(s, steps, i, n)
    ensures n >= 0
  {
  }

  // ---------- one session per login transaction ----------

  /** The login transaction a login has used up. */
  function Used(l: Login): (r: Option<Id>) {
    match l
    case Consumed(_, t, _) => Some(t)
    case Resolved(t, _) => Some(t)
    case Done(t) => Some(t)
    case _ => None
  }

  ghost predicate DistinctIds(ts: seq<LoginTransaction>) {
    forall i, j | 0 <= i < j < |ts| :: ts[i].id != ts[j].id
  }

  ghost predicate Finished(logins: seq<Login>, transaction: Id) {
    exists k | 0 <= k < |logins| :: logins[k] == Done(transaction)
  }

  ghost predicate IdsIssued(s: State) {
    && (forall i | 0 <= i < |s.store.transactions| :: s.store.transactions[i].id < s.nextId)
    && DistinctIds(s.store.transactions)
    && (forall k | 0 <= k < |s.logins| && Used(s.logins[k]).Some? :: Used(s.logins[k]).value < s.nextId)
  }

  /** A used transaction belongs to one login and is consumed for good. */
  ghost predicate UsedOnce(s: State) {
    && (forall k, l | 0 <= k < l < |s.logins| && Used(s.logins[k]).Some? :: Used(s.logins[k]) != Used(s.logins[l]))
    && (forall k, i | 0 <= k < |s.logins| && 0 <= i < |s.store.transactions|
        && Used(s.logins[k]) == Some(s.store.transactions[i].id) ::
          s.store.transactions[i].consumedAt.Some?)
  }

  /** Sessions and finished logins correspond. */
  ghost predicate SessionsEarned(s: State) {
    && (forall i | 0 <= i < |s.store.sessions| :: Finished(s.logins, s.store.sessions[i].transaction))
    && (forall i, j | 0 <= i < j < |s.store.sessions| ::
        s.store.sessions[i].transaction != s.store.sessions[j].transaction)
  }

  ghost predicate Orderly(s: State) {
    IdsIssued(s) && UsedOnce(s) && SessionsEarned(s)
  }

  lemma {:induction false} FilterKeepsIds(ts: seq<LoginTransaction>, at: Time)
    requires DistinctIds(ts)
    ensures DistinctIds(Filter(ts, (x: LoginTransaction) => x.expiresAt > at))
  {
    if ts != [] {
      FilterKeepsIds(ts[1..], at);
      var keep := (x: LoginTransaction) => x.expiresAt > at;
      var rest := Filter(ts[1..], keep);
      assert Filter(ts, keep) == if keep(ts[0]) then [ts[0]] + rest else rest;
      forall i | 0 <= i < |rest| ensures rest[i].id != ts[0].id {
        assert rest[i] in rest && rest[i] in ts[1..];
      }
    }
  }

  lemma BeginStaysOrderly(s: State, t: LoginTransaction, at: Time)
    requires Orderly(s) && t.id == s.nextId && t.consumedAt == None
    ensures Orderly(s.(store := BeginLogin(s.store, t, at), nextId := s.nextId + 1))
  {
    hide Filter, SessionsEarned, Used;
    FilterKeepsIds(s.store.transactions, at);
    var kept := Filter(s.store.transactions, (x: LoginTransaction) => x.expiresAt > at);
    forall i | 0 <= i < |kept| ensures kept[i] in s.store.transactions {
      assert kept[i] in kept;
    }
    SessionsFollowLogins(s, s.(store := BeginLogin(s.store, t, at), nextId := s.nextId + 1));
  }

  lemma ConsumeStaysOrderly(s: State, login: nat)
    requires Orderly(s)
    ensures Orderly(Next(s, ConsumeStep(login)))
  {
    hide SessionsEarned;
    var r := Next(s, ConsumeStep(login));
    assert SessionsEarned(r) by { SessionsFollowLogins(s, r); }
  }

  lemma SessionsFollowLogins(s: State, r: State)
    requires SessionsEarned(s) && r.store.sessions == s.store.sessions && |s.logins| <= |r.logins|
    requires forall k | 0 <= k < |s.logins| && s.logins[k].Done? :: r.logins[k] == s.logins[k]
    ensures SessionsEarned(r)
  {
    forall i | 0 <= i < |r.store.sessions| ensures Finished(r.logins, r.store.sessions[i].transaction) {
      var k :| 0 <= k < |s.logins| && s.logins[k] == Done(s.store.sessions[i].transaction);
      assert r.logins[k] == Done(r.store.sessions[i].transaction);
    }
  }

  lemma SessionStaysOrderly(s: State, login: nat)
    requires Orderly(s)
    ensures Orderly(Next(s, SessionStep(login)))
  {
    var r := Next(s, SessionStep(login));
    if r != s {
      var t := s.logins[login].transaction;
      forall i | 0 <= i < |s.store.sessions| ensures s.store.sessions[i].transaction != t {
        var k :| 0 <= k < |s.logins| && s.logins[k] == Done(s.store.sessions[i].transaction);
        assert Used(s.logins[k]) == Some(s.store.sessions[i].transaction) && Used(s.logins[login]) == Some(t)
            && k != login;
      }
      SessionsFollowLogins(s, r.(store := r.store.(sessions := s.store.sessions)));
      assert r.logins[login] == Done(t);
    }
  }

  lemma ResolveKeepsSessions(s: Store, claims: Claims, at: Time)
    ensures Resolve(s, claims, at).store.(identities := s.identities) == s
  {
    hide Trim, Lower;
  }

  lemma StepStaysOrderly(s: State, step: Step)
    requires Orderly(s)
    ensures Orderly(Next(s, step))
  {
    hide BeginLogin, Consume, Resolve, SetActive, ActiveTransaction, Trim, ValidClaims, SessionsEarned, ConsumableAt;
    var r := Next(s, step);
    match step
    case Begin(issuer, tokenHash, stateHash, expiresAt, at) =>
      BeginStaysOrderly(s, LoginTransaction(s.nextId, issuer, tokenHash, stateHash, expiresAt, None), at);
    case Load(_, _, _, _) =>
      SessionsFollowLogins(s, r);
    case ConsumeStep(login) =>
      ConsumeStaysOrderly(s, login);
    case ResolveStep(login, claims) =>
      if r != s && ValidClaims(claims, s.logins[login].issuer) {
        ResolveKeepsSessions(s.store, claims.(subject := Trim(claims.subject)), s.logins[login].at);
      }
      SessionsFollowLogins(s, r);
    case SessionStep(login) =>
      SessionStaysOrderly(s, login);
    case StatusStep(userId, active) =>
      StatusKeepsRest(s.store, userId, active);
      SessionsFollowLogins(s, r);
    case AddUserStep(user) =>
      SessionsFollowLogins(s, r);
  }

  lemma StatusKeepsRest(s: Store, userId: Id, active: bool)
    ensures SetActive(s, userId, active).(users := s.users) == s
  {
  }

  lemma {:induction false} RunStaysOrderly(s: State, steps: seq<Step>)
    requires Orderly(s)
    ensures Orderly(Run(s, steps))
    decreases |steps|
  {
    hide Next, Orderly;
    if steps != [] {
      StepStaysOrderly(s, steps[0]);
      RunStaysOrderly(Next(s, steps[0]), steps[1..]);
    }
  }

  /** Over every interleaving of logins and status changes, a login transaction produces at most one session. */
  lemma OneSessionPerTransaction(users: seq<User>, steps: seq<Step>, i: nat, j: nat)
    requires i < j < |Run(Start(users), steps).store.sessions|
    ensures Run(Start(users), steps).store.sessions[i].transaction != Run(Start(users),
        steps).store.sessions[j].transaction
  {
    hide Next;
    RunStaysOrderly(Start(users), steps);
  }

  // ---------- whose session it is ----------

  function Trimmed(claims: Claims): (r: Claims) {
    claims.(subject := Trim(claims.subject))
  }

  /** The step at place n resolved a login of that transaction to that user: its claims are valid at the login's
      issuer, and when it was done the user was active and bound to the claims' subject. */
  ghost predicate ResolvedDuring(s: State, steps: seq<Step>, n: int, transaction: Id, userId: Id) {
    && 0 <= n < |steps| && steps[n].ResolveStep?
    && var before, login, claims := Run(s, steps[..n]), steps[n].login, steps[n].claims;
      && login < |before.logins| && before.logins[login].Consumed? && before.logins[login].transaction == transaction
      && claims.issuer == before.logins[login].issuer && 0 < |Trim(claims.subject)| <= 512
      && (claims.email.Some? ==> |claims.email.value| <= 320)
      && Answers(Run(s, steps[..n + 1]).store, Trimmed(claims), userId)
  }

  ghost predicate IsResolved(s: State, steps: seq<Step>, transaction: Id, userId: Id) {
    exists n :: ResolvedDuring(s, steps, n, transaction, userId)
  }

  /** Every session, and every login about to get one, goes back to such a step. */
  ghost predicate AllResolved(s: State, steps: seq<Step>, now: State) {
    && (forall i | 0 <= i < |now.store.sessions| ::
          IsResolved(s, steps, now.store.sessions[i].transaction, now.store.sessions[i].userId))
    && (forall k | 0 <= k < |now.logins| && now.logins[k].Resolved? ::
          IsResolved(s, steps, now.logins[k].transaction, now.logins[k].userId))
  }

  lemma {:induction false} RunLast(s: State, steps: seq<Step>)
    requires steps != []
    ensures Run(s, steps) == Next(Run(s, steps[..|steps| - 1]), steps[|steps| - 1])
    decreases |steps|
  {
    hide Next;
    if |steps| == 1 {
      assert steps[1..] == [] && steps[..0] == [];
    } else {
      RunLast(Next(s, steps[0]), steps[1..]);
      assert steps[..|steps| - 1][0] == steps[0];
      assert steps[1..][..|steps| - 2] == steps[..|steps| - 1][1..];
    }
  }

  lemma ResolvedLater(s: State, steps: seq<Step>, more: Step, transaction: Id, userId: Id)
    requires IsResolved(s, steps, transaction, userId)
    ensures IsResolved(s, steps + [more], transaction, userId)
  {
    hide ResolvedDuring;
    var n :| ResolvedDuring(s, steps, n, transaction, userId);
    SameStart(s, steps, steps + [more], n, transaction, userId);
  }

  lemma SameStart(s: State, steps: seq<Step>, longer: seq<Step>, n: int, transaction: Id, userId: Id)
    requires ResolvedDuring(s, steps, n, transaction, userId) && |steps| <= |longer| && longer[..|steps|] == steps
    ensures ResolvedDuring(s, longer, n, transaction, userId)
  {
    hide Run, Answers, Trim;
    assert longer[n] == longer[..|steps|][n];
    assert longer[..n] == longer[..|steps|][..n] && longer[..n + 1] == longer[..|steps|][..n + 1];
  }

  /** The login a step newly resolves, if any, is resolved during that step. */
  lemma ResolvedNow(s: State, steps: seq<Step>, more: Step, now: State)
    requires now == Run(s, steps) && OneToOne(now.store.identities) && more.ResolveStep?
    requires more.login < |now.logins| && now.logins[more.login].Consumed?
    requires Next(now, more).logins[more.login].Resolved?
    ensures var l := Next(now, more).logins[more.login]; IsResolved(s, steps + [more], l.transaction, l.userId)
  {
    hide Run, Answers, Resolve, Trim, OneToOne;
    var longer := steps + [more];
    assert longer[..|steps|] == steps && longer[..|steps| + 1] == longer && longer[..|longer| - 1] == steps;
    RunLast(s, longer);
    ResolveBinds(now.store, Trimmed(more.claims), now.logins[more.login].at);
    var l := Next(now, more).logins[more.login];
    assert ResolvedDuring(s, longer, |steps|, l.transaction, l.userId);
  }

  /** What a step does to logins and sessions, as far as resolved users go. */
  lemma StepResolves(now: State, more: Step)
    ensures var next := Next(now, more);
      && |now.logins| <= |next.logins|
      && (forall i | 0 <= i < |next.store.sessions| ::
            (i < |now.store.sessions| && next.store.sessions[i] == now.store.sessions[i])
            || exists k | 0 <= k < |now.logins| ::
                 now.logins[k] == Resolved(next.store.sessions[i].transaction, next.store.sessions[i].userId))
      && (forall k | 0 <= k < |next.logins| && next.logins[k].Resolved? ::
            (k < |now.logins| && next.logins[k] == now.logins[k])
            || (more.ResolveStep? && more.login == k && k < |now.logins| && now.logins[k].Consumed?))
  {
    hide BeginLogin, Consume, Resolve, SetActive, AddUser, ActiveTransaction, ConsumableAt, ValidClaims, Trim;
    match more
    case Begin(issuer, tokenHash, stateHash, expiresAt, at) =>
      BeginKeepsRest(now.store, LoginTransaction(now.nextId, issuer, tokenHash, stateHash, expiresAt, None), at);
    case ConsumeStep(login) =>
      if login < |now.logins| && now.logins[login].Loaded? {
        ConsumeKeepsRest(now.store, now.logins[login].transaction, now.logins[login].at);
      }
    case ResolveStep(login, claims) =>
      if login < |now.logins| && now.logins[login].Consumed? {
        ResolveKeepsSessions(now.store, claims.(subject := Trim(claims.subject)), now.logins[login].at);
      }
    case StatusStep(userId, active) =>
      StatusKeepsRest(now.store, userId, active);
    case AddUserStep(user) =>
      AddUserKeepsRest(now.store, user);
    case _ =>
  }

  lemma AddUserKeepsRest(s: Store, user: User)
    ensures AddUser(s, user).(users := s.users) == s
  {
  }

  lemma {:induction false} RunResolves(s: State, steps: seq<Step>)
    requires OneToOne(s.store.identities) && s.store.sessions == [] && s.logins == []
    ensures AllResolved(s, steps, Run(s, steps))
  {
    hide Next, Run, OneToOne, IsResolved;
    if steps == [] {
      RunNothing(s);
    } else {
      var front, more := steps[..|steps| - 1], steps[|steps| - 1];
      var now := Run(s, front);
      assert steps == front + [more];
      RunLast(s, steps);
      RunResolves(s, front);
      BindingsNeverMove(s, front);
      StepResolves(now, more);
      forall t, u | IsResolved(s, front, t, u) ensures IsResolved(s, steps, t, u) {
        ResolvedLater(s, front, more, t, u);
      }
      if more.ResolveStep? && more.login < |now.logins| && now.logins[more.login].Consumed?
         && Next(now, more).logins[more.login].Resolved? {
        ResolvedNow(s, front, more, now);
      }
    }
  }

  lemma RunNothing(s: State)
    ensures Run(s, []) == s
  {
  }

  /** Over every interleaving, each session belongs to the user whom a login of its transaction was resolved to: one
      who was active then and bound to the subject of claims valid at the login's issuer. */
  lemma SessionsBelongToSubjects(users: seq<User>, steps: seq<Step>, i: nat)
    requires i < |Run(Start(users), steps).store.sessions|
    ensures var session := Run(Start(users), steps).store.sessions[i];
      IsResolved(Start(users), steps, session.transaction, session.userId)
  {
    hide Run, IsResolved;
    RunResolves(Start(users), steps);
  }

  /** And to this day the subject is bound to that user. */
  lemma SubjectsStayBound(users: seq<User>, steps: seq<Step>, n: nat, transaction: Id, userId: Id)
    requires ResolvedDuring(Start(users), steps, n, transaction, userId)
    ensures exists i | i in Run(Start(users), steps).store.identities ::
        i.issuer == steps[n].claims.issuer && i.subject == Trim(steps[n].claims.subject) && i.userId == userId
  {
    hide Next, Trim;
    var middle := Run(Start(users), steps[..n + 1]);
    RunSplit(Start(users), steps, n + 1);
    BindingsNeverMove(Start(users), steps[..n + 1]);
    BindingsNeverMove(middle, steps[n + 1..]);
    var i :| i in middle.store.identities && i.issuer == steps[n].claims.issuer
             && i.subject == Trim(steps[n].claims.subject) && i.userId == userId;
    var k :| 0 <= k < |middle.store.identities| && middle.store.identities[k] == i;
    var later := Run(middle, steps[n + 1..]).store.identities[k];
    assert later.(lastLoginAt := i.lastLoginAt) == i;
    assert later.issuer == i.issuer && later.subject == i.subject && later.userId == i.userId;
  }

  lemma {:induction false} RunSplit(s: State, steps: seq<Step>, n: nat)
    requires n <= |steps|
    ensures Run(s, steps) == Run(Run(s, steps[..n]), steps[n..])
    decreases n
  {
    hide Next;
    if n == 0 {
      assert steps[0..] == steps && steps[..0] == [];
    } else {
      assert steps[..n][0] == steps[0] && steps[..n][1..] == steps[1..][..n - 1] && steps[1..][n - 1..] == steps[n..];
      RunSplit(Next(s, steps[0]), steps[1..], n - 1);
    }
  }
}
