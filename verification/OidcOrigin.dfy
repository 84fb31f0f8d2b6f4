/** Where a session comes from: the browser that began the login, in time, and exactly the user its claims stand for. */
module OidcOrigin {
  import opened Primitives
  import opened Text
  import opened Sorting
  import opened OidcLogin

  // ---------- the login that was begun ----------

  /** The step at place b began the login transaction with that id. */
  ghost predicate BegunAt(s: State, steps: seq<Step>, b: int, id: Id) {
    0 <= b < |steps| && steps[b].Begin? && Run(s, steps[..b]).nextId == id
  }

  /** The step at place l started the login with that number: its callback presented the issuer, token and state that
      the step at place b had begun the transaction with, before it expired. */
  ghost predicate LoadedAt(s: State, steps: seq<Step>, b: int, l: int, login: nat, id: Id) {
    && BegunAt(s, steps, b, id) && 0 <= b < l < |steps| && steps[l].Load? && |Run(s, steps[..l]).logins| == login
    && steps[l].issuer == steps[b].issuer && steps[l].tokenHash == steps[b].tokenHash
    && steps[l].stateHash == steps[b].stateHash && steps[l].at < steps[b].expiresAt
  }

  /** The step at place c, after that, took the transaction for the login, as of the time of its callback, while it
      was there and not yet consumed. */
  ghost predicate TakenAt(s: State, steps: seq<Step>, b: int, l: int, c: int, login: nat, id: Id) {
    && LoadedAt(s, steps, b, l, login, id) && l < c < |steps| && steps[c] == ConsumeStep(login)
    && (var before := Run(s, steps[..c]);
        && login < |before.logins| && before.logins[login] == Loaded(steps[l].issuer, id, steps[l].at)
        && exists t | t in before.store.transactions :: t.id == id && t.consumedAt == None)
  }

  ghost predicate Loads(s: State, steps: seq<Step>, login: nat, id: Id, issuer: Text, at: Time) {
    exists b, l :: LoadedAt(s, steps, b, l, login, id) && steps[l].issuer == issuer && steps[l].at == at
  }

  ghost predicate Takes(s: State, steps: seq<Step>, login: nat, id: Id) {
    exists b, l, c :: TakenAt(s, steps, b, l, c, login, id)
  }

  ghost predicate Stored(s: State, steps: seq<Step>, t: LoginTransaction) {
    exists b :: BegunAt(s, steps, b, t.id) && steps[b].issuer == t.issuer && steps[b].tokenHash == t.tokenHash
      && steps[b].stateHash == t.stateHash && steps[b].expiresAt == t.expiresAt
  }

  /** Every stored transaction was begun, every loaded login loaded, and every login past that took its transaction. */
  ghost predicate Traced(s: State, steps: seq<Step>, now: State) {
    && (forall t | t in now.store.transactions :: Stored(s, steps, t))
    && (forall k: nat | k < |now.logins| && now.logins[k].Loaded? ::
          Loads(s, steps, k, now.logins[k].transaction, now.logins[k].issuer, now.logins[k].at))
    && (forall k: nat | k < |now.logins| && Used(now.logins[k]).Some? :: Takes(s, steps, k, Used(now.logins[k]).value))
  }

  lemma BegunLater(s: State, steps: seq<Step>, more: Step, b: int, id: Id)
    requires BegunAt(s, steps, b, id)
    ensures BegunAt(s, steps + [more], b, id) && (steps + [more])[b] == steps[b]
  {
    hide Run;
    assert (steps + [more])[..b] == steps[..b];
  }

  lemma LoadedLater(s: State, steps: seq<Step>, more: Step, b: int, l: int, login: nat, id: Id)
    requires LoadedAt(s, steps, b, l, login, id)
    ensures LoadedAt(s, steps + [more], b, l, login, id) && (steps + [more])[l] == steps[l]
  {
    hide Run;
    BegunLater(s, steps, more, b, id);
    assert (steps + [more])[..l] == steps[..l];
  }

  lemma TakenLater(s: State, steps: seq<Step>, more: Step, b: int, l: int, c: int, login: nat, id: Id)
    requires TakenAt(s, steps, b, l, c, login, id)
    ensures TakenAt(s, steps + [more], b, l, c, login, id)
  {
    hide Run, BegunAt;
    LoadedLater(s, steps, more, b, l, login, id);
    assert (steps + [more])[c] == steps[c] && (steps + [more])[..c] == steps[..c];
  }

  lemma TracesLast(s: State, steps: seq<Step>, more: Step)
    ensures forall t | Stored(s, steps, t) :: Stored(s, steps + [more], t)
    ensures forall k: nat, id, issuer, at | Loads(s, steps, k, id, issuer, at) ::
      Loads(s, steps + [more], k, id, issuer, at)
    ensures forall k: nat, id | Takes(s, steps, k, id) :: Takes(s, steps + [more], k, id)
  {
    hide BegunAt, LoadedAt, TakenAt;
    forall t | Stored(s, steps, t) ensures Stored(s, steps + [more], t) {
      StoredLater(s, steps, more, t);
    }
    forall k: nat, id, issuer, at | Loads(s, steps, k, id, issuer, at)
      ensures Loads(s, steps + [more], k, id, issuer, at)
    {
      LoadsLater(s, steps, more, k, id, issuer, at);
    }
    forall k: nat, id | Takes(s, steps, k, id) ensures Takes(s, steps + [more], k, id) {
      var b, l, c :| TakenAt(s, steps, b, l, c, k, id);
      TakenLater(s, steps, more, b, l, c, k, id);
    }
  }

  lemma StoredLater(s: State, steps: seq<Step>, more: Step, t: LoginTransaction)
    requires Stored(s, steps, t)
    ensures Stored(s, steps + [more], t)
  {
    hide Run;
    var b :| BegunAt(s, steps, b, t.id) && steps[b].issuer == t.issuer && steps[b].tokenHash == t.tokenHash
             && steps[b].stateHash == t.stateHash && steps[b].expiresAt == t.expiresAt;
    BegunLater(s, steps, more, b, t.id);
  }

  lemma LoadsLater(s: State, steps: seq<Step>, more: Step, k: nat, id: Id, issuer: Text, at: Time)
    requires Loads(s, steps, k, id, issuer, at)
    ensures Loads(s, steps + [more], k, id, issuer, at)
  {
    hide Run;
    var b, l :| LoadedAt(s, steps, b, l, k, id) && steps[l].issuer == issuer && steps[l].at == at;
    LoadedLater(s, steps, more, b, l, k, id);
  }

  /** What a step does to transactions: it consumes, drops or keeps them, and at most adds one that it begins. */
  lemma StepTransactions(now: State, more: Step)
    ensures forall t | t in Next(now, more).store.transactions ::
      || (exists earlier | earlier in now.store.transactions :: t.(consumedAt := earlier.consumedAt) == earlier)
      || (more.Begin? && t.id == now.nextId && t.issuer == more.issuer && t.tokenHash == more.tokenHash
          && t.stateHash == more.stateHash && t.expiresAt == more.expiresAt)
  {
    hide Resolve, SetActive, AddUser, ActiveTransaction, ValidClaims, Trim;
    var next := Next(now, more);
    match more
    case Begin(_, _, _, _, _) =>
    case Load(_, _, _, _) =>
    case ConsumeStep(login) =>
    case ResolveStep(login, claims) =>
      if login < |now.logins| && now.logins[login].Consumed? {
        ResolveKeepsSessions(now.store, claims.(subject := Trim(claims.subject)), now.logins[login].at);
      }
    case SessionStep(login) =>
    case StatusStep(userId, active) =>
      StatusKeepsRest(now.store, userId, active);
    case AddUserStep(user) =>
      AddUserKeepsRest(now.store, user);
  }

  /** What a step does to logins: a new one may be loaded by this step, a loaded one may take its transaction, and
      nothing else puts a login into those places. */
  lemma StepLogins(now: State, more: Step)
    ensures var next := Next(now, more).logins;
      && (forall k: nat | k < |next| && next[k].Loaded? ::
            || (k < |now.logins| && now.logins[k] == next[k])
            || (k == |now.logins| && more.Load? && next[k].issuer == more.issuer && next[k].at == more.at
                && exists t | t in now.store.transactions :: t.id == next[k].transaction && t.issuer == more.issuer
                     && t.tokenHash == more.tokenHash && t.stateHash == more.stateHash && more.at < t.expiresAt))
      && (forall k: nat | k < |next| && Used(next[k]).Some? ::
            || (k < |now.logins| && Used(now.logins[k]) == Used(next[k]))
            || (k < |now.logins| && now.logins[k].Loaded? && now.logins[k].transaction == Used(next[k]).value
                && more == ConsumeStep(k)
                && exists t | t in now.store.transactions :: t.id == Used(next[k]).value && t.consumedAt == None))
  {
    hide BeginLogin, Consume, Resolve, SetActive, AddUser, ValidClaims, Trim;
    match more
    case Begin(_, _, _, _, _) =>
    case Load(_, tokenHash, _, at) =>
      ActiveMeans(now.store, tokenHash, at);
    case ConsumeStep(login) =>
    case ResolveStep(login, claims) =>
    case SessionStep(login) =>
    case StatusStep(userId, active) =>
    case AddUserStep(user) =>
  }

  /** The transaction a token finds carries it, is not consumed and not expired. */
  lemma ActiveMeans(s: Store, tokenHash: Text, at: Time)
    ensures var found := ActiveTransaction(s, tokenHash, at);
      && (found.Some? ==>
            && found.value in s.transactions && found.value.tokenHash == tokenHash
            && found.value.consumedAt == None && at < found.value.expiresAt)
      && (found == None ==>
            !exists t | t in s.transactions :: t.tokenHash == tokenHash && t.consumedAt == None && at < t.expiresAt)
  {
  }

  lemma StoredNow(s: State, steps: seq<Step>, more: Step, now: State, t: LoginTransaction)
    requires now == Run(s, steps) && more.Begin? && t.id == now.nextId && t.issuer == more.issuer
    requires t.tokenHash == more.tokenHash && t.stateHash == more.stateHash && t.expiresAt == more.expiresAt
    ensures Stored(s, steps + [more], t)
  {
    hide Run;
    var longer := steps + [more];
    assert longer[..|steps|] == steps && longer[|steps|] == more;
    assert BegunAt(s, longer, |steps|, t.id);
  }

  lemma LoadsNow(s: State, steps: seq<Step>, more: Step, now: State, t: LoginTransaction)
    requires now == Run(s, steps) && more.Load? && Stored(s, steps, t) && t.issuer == more.issuer
    requires t.tokenHash == more.tokenHash && t.stateHash == more.stateHash && more.at < t.expiresAt
    ensures Loads(s, steps + [more], |now.logins|, t.id, more.issuer, more.at)
  {
    hide Run;
    var longer := steps + [more];
    var b :| BegunAt(s, steps, b, t.id) && steps[b].issuer == t.issuer && steps[b].tokenHash == t.tokenHash
             && steps[b].stateHash == t.stateHash && steps[b].expiresAt == t.expiresAt;
    BegunLater(s, steps, more, b, t.id);
    assert longer[..|steps|] == steps && longer[|steps|] == more;
    assert LoadedAt(s, longer, b, |steps|, |now.logins|, t.id);
  }

  lemma TakesNow(s: State, steps: seq<Step>, more: Step, now: State, k: nat, id: Id, issuer: Text, at: Time)
    requires now == Run(s, steps) && more == ConsumeStep(k) && Loads(s, steps, k, id, issuer, at)
    requires k < |now.logins| && now.logins[k] == Loaded(issuer, id, at)
    requires exists t | t in now.store.transactions :: t.id == id && t.consumedAt == None
    ensures Takes(s, steps + [more], k, id)
  {
    hide Run;
    var longer := steps + [more];
    var b, l :| LoadedAt(s, steps, b, l, k, id) && steps[l].issuer == issuer && steps[l].at == at;
    LoadedLater(s, steps, more, b, l, k, id);
    assert longer[..|steps|] == steps && longer[|steps|] == more;
    assert TakenAt(s, longer, b, l, |steps|, k, id);
  }

  lemma {:induction false} RunIsTraced(s: State, steps: seq<Step>)
    requires s.store.transactions == [] && s.logins == []
    ensures Traced(s, steps, Run(s, steps))
  {
    hide Next, Run, Stored, Loads, Takes;
    if steps == [] {
      RunNothing(s);
    } else {
      var front, more := steps[..|steps| - 1], steps[|steps| - 1];
      assert steps == front + [more];
      RunIsTraced(s, front);
      RunLast(s, steps);
      TracedStep(s, front, more, Run(s, front));
    }
  }

  lemma TracedStep(s: State, steps: seq<Step>, more: Step, now: State)
    requires now == Run(s, steps) && Traced(s, steps, now)
    ensures Traced(s, steps + [more], Next(now, more))
  {
    hide Next, Run, Stored, Loads, Takes;
    var next := Next(now, more);
    TracesLast(s, steps, more);
    StepTransactions(now, more);
    StepLogins(now, more);
    forall t | t in next.store.transactions ensures Stored(s, steps + [more], t) {
      if earlier :| earlier in now.store.transactions && t.(consumedAt := earlier.consumedAt) == earlier {
        StoredIgnoresConsumption(s, steps + [more], earlier, t);
      } else {
        StoredNow(s, steps, more, now, t);
      }
    }
    forall k: nat | k < |next.logins| && next.logins[k].Loaded?
      ensures Loads(s, steps + [more], k, next.logins[k].transaction, next.logins[k].issuer, next.logins[k].at)
    {
      if !(k < |now.logins| && now.logins[k] == next.logins[k]) {
        var t :| t in now.store.transactions && t.id == next.logins[k].transaction && t.issuer == more.issuer
                 && t.tokenHash == more.tokenHash && t.stateHash == more.stateHash && more.at < t.expiresAt;
        LoadsNow(s, steps, more, now, t);
      }
    }
    forall k: nat | k < |next.logins| && Used(next.logins[k]).Some?
      ensures Takes(s, steps + [more], k, Used(next.logins[k]).value)
    {
      if !(k < |now.logins| && Used(now.logins[k]) == Used(next.logins[k])) {
        TakesNow(s, steps, more, now, k, now.logins[k].transaction, now.logins[k].issuer, now.logins[k].at);
      }
    }
  }

  lemma StoredIgnoresConsumption(s: State, steps: seq<Step>, earlier: LoginTransaction, t: LoginTransaction)
    requires Stored(s, steps, earlier) && t.(consumedAt := earlier.consumedAt) == earlier
    ensures Stored(s, steps, t)
  {
    hide BegunAt;
    assert earlier.id == t.id && earlier.issuer == t.issuer && earlier.tokenHash == t.tokenHash;
    assert earlier.stateHash == t.stateHash && earlier.expiresAt == t.expiresAt;
  }

  /** Over every interleaving, each session comes from a login that a callback started with the issuer, the token and
      the state its transaction was begun with, before the transaction expired, and that took the transaction while it
      was unconsumed. */
  lemma SessionsComeFromTheirBrowser(users: seq<User>, steps: seq<Step>, i: nat)
    requires i < |Run(Start(users), steps).store.sessions|
    ensures var id := Run(Start(users), steps).store.sessions[i].transaction;
      exists login: nat, b, l, c :: TakenAt(Start(users), steps, b, l, c, login, id)
  {
    hide Run, TakenAt, Orderly;
    RunIsTraced(Start(users), steps);
    StartOrderly(users);
    RunStaysOrderly(Start(users), steps);
    var now := Run(Start(users), steps);
    var k := LoginOfSession(now, i);
    assert Takes(Start(users), steps, k, now.store.sessions[i].transaction);
  }

  lemma StartOrderly(users: seq<User>)
    ensures Orderly(Start(users))
  {
  }

  lemma LoginOfSession(s: State, i: nat) returns (k: nat)
    requires Orderly(s) && i < |s.store.sessions|
    ensures k < |s.logins| && s.logins[k] == Done(s.store.sessions[i].transaction)
  {
    hide IdsIssued, UsedOnce;
    assert Finished(s.logins, s.store.sessions[i].transaction);
    k :| k < |s.logins| && s.logins[k] == Done(s.store.sessions[i].transaction);
  }

  // ---------- exactly the callbacks that are let in ----------

  ghost predicate DistinctTokens(ts: seq<LoginTransaction>) {
    forall i, j | 0 <= i < j < |ts| :: ts[i].tokenHash != ts[j].tokenHash
  }

  /** A callback starts a login on a transaction exactly when the transaction has its token, issuer and state, is not
      consumed and has not expired; otherwise it is refused. */
  lemma WhenLoaded(s: State, issuer: Text, tokenHash: Text, stateHash: Text, at: Time, id: Id)
    requires DistinctTokens(s.store.transactions)
    ensures var after := Next(s, Load(issuer, tokenHash, stateHash, at)).logins;
      && |after| == |s.logins| + 1 && after[..|s.logins|] == s.logins
      && (after[|s.logins|] == Loaded(issuer, id, at) <==>
            exists t | t in s.store.transactions :: t.id == id && t.tokenHash == tokenHash && t.issuer == issuer
              && t.stateHash == stateHash && t.consumedAt == None && at < t.expiresAt)
      && (after[|s.logins|] == Refused || after[|s.logins|].Loaded?)
  {
    hide ActiveTransaction;
    ActiveMeans(s.store, tokenHash, at);
    var found := ActiveTransaction(s.store, tokenHash, at);
    forall t | t in s.store.transactions && t.tokenHash == tokenHash && found.Some? ensures t == found.value {
      var i :| 0 <= i < |s.store.transactions| && s.store.transactions[i] == t;
      var j :| 0 <= j < |s.store.transactions| && s.store.transactions[j] == found.value;
    }
  }

  lemma {:induction false} FilterKeepsTokens(ts: seq<LoginTransaction>, at: Time)
    requires DistinctTokens(ts)
    ensures DistinctTokens(Filter(ts, (x: LoginTransaction) => x.expiresAt > at))
  {
    if ts != [] {
      FilterKeepsTokens(ts[1..], at);
      var keep := (x: LoginTransaction) => x.expiresAt > at;
      var rest := Filter(ts[1..], keep);
      assert Filter(ts, keep) == if keep(ts[0]) then [ts[0]] + rest else rest;
      forall i | 0 <= i < |rest| ensures rest[i].tokenHash != ts[0].tokenHash {
        assert rest[i] in rest && rest[i] in ts[1..];
      }
    }
  }

  lemma StepKeepsTokens(s: State, step: Step)
    requires DistinctTokens(s.store.transactions)
    ensures DistinctTokens(Next(s, step).store.transactions)
  {
    hide Resolve, SetActive, AddUser, ActiveTransaction, ValidClaims, Trim, Filter;
    match step
    case Begin(_, _, _, _, at) =>
      FilterKeepsTokens(s.store.transactions, at);
      var kept := Filter(s.store.transactions, (x: LoginTransaction) => x.expiresAt > at);
      assert forall i | 0 <= i < |kept| :: kept[i] in kept;
    case Load(_, _, _, _) =>
    case ConsumeStep(login) =>
    case ResolveStep(login, claims) =>
      if login < |s.logins| && s.logins[login].Consumed? {
        ResolveKeepsSessions(s.store, claims.(subject := Trim(claims.subject)), s.logins[login].at);
      }
    case SessionStep(login) =>
    case StatusStep(userId, active) =>
      StatusKeepsRest(s.store, userId, active);
    case AddUserStep(user) =>
      AddUserKeepsRest(s.store, user);
  }

  /** Over every interleaving no two stored transactions share a token. */
  lemma {:induction false} RunKeepsTokens(s: State, steps: seq<Step>)
    requires DistinctTokens(s.store.transactions)
    ensures DistinctTokens(Run(s, steps).store.transactions)
    decreases |steps|
  {
    hide Next, DistinctTokens;
    if steps != [] {
      StepKeepsTokens(s, steps[0]);
      RunKeepsTokens(Next(s, steps[0]), steps[1..]);
    }
  }

  // ---------- exactly the user the claims stand for ----------

  /** Ids and, whatever their letter case, e-mails are unique, bindings are one-to-one and to users there are. */
  ghost predicate StoreSound(s: Store) {
    && (forall i, j | 0 <= i < j < |s.users| :: s.users[i].id != s.users[j].id)
    && (forall i, j | 0 <= i < j < |s.users| :: Lower(s.users[i].email) != Lower(s.users[j].email))
    && OneToOne(s.identities)
    && (forall i | i in s.identities :: exists u | u in s.users :: u.id == i.userId)
  }

  ghost predicate Bound(s: Store, issuer: Text, subject: Text, userId: Id) {
    exists i | i in s.identities :: i.issuer == issuer && i.subject == subject && i.userId == userId
  }

  /** An active user to whom the claims' subject is bound, or, as long as it is bound to nobody, one with the verified
      e-mail who has no other binding at the issuer. */
  ghost predicate Deserves(s: Store, claims: Claims, user: User) {
    && user in s.users && user.active
    && (|| Bound(s, claims.issuer, claims.subject, user.id)
        || (&& (forall other :: !Bound(s, claims.issuer, claims.subject, other))
            && claims.email.Some? && claims.email.value != [] && claims.emailVerified
            && Lower(user.email) == Lower(Lower(Trim(claims.email.value)))
            && (forall i | i in s.identities :: !(i.issuer == claims.issuer && i.userId == user.id))))
  }

  lemma UserById(s: Store, u: User)
    requires StoreSound(s) && u in s.users
    ensures UserAt(s, u.id) == Some(u)
  {
    hide OneToOne, Lower;
    var i :| 0 <= i < |s.users| && s.users[i] == u;
    var k := IndexOf(s.users, (x: User) => x.id == u.id);
    assert k < |s.users| && (k < i || k == i);
  }

  lemma UserOfEmail(s: Store, u: User, email: Text)
    requires StoreSound(s) && u in s.users && Lower(u.email) == Lower(Lower(Trim(email)))
    ensures UserByEmail(s, email) == Some(u)
  {
    hide OneToOne, Lower, Trim;
    var i :| 0 <= i < |s.users| && s.users[i] == u;
    var k := IndexOf(s.users, (x: User) => Lower(x.email) == Lower(Lower(Trim(email))));
    assert k < |s.users| && (k < i || k == i);
  }

  lemma BoundUser(s: Store, issuer: Text, subject: Text, u: User)
    requires StoreSound(s) && u in s.users && Bound(s, issuer, subject, u.id)
    ensures UserByIdentity(s, issuer, subject) == Some(u)
  {
    hide Lower, UserAt, StoreSound;
    SoundOneToOne(s);
    var i :| i in s.identities && i.issuer == issuer && i.subject == subject && i.userId == u.id;
    var n :| 0 <= n < |s.identities| && s.identities[n] == i;
    var k := IdentityAt(s, issuer, subject);
    assert k == n;
    UserById(s, u);
  }

  lemma SoundOneToOne(s: Store)
    requires StoreSound(s)
    ensures OneToOne(s.identities)
  {
    hide Lower;
  }

  lemma NobodyBound(s: Store, issuer: Text, subject: Text)
    requires forall other :: !Bound(s, issuer, subject, other)
    ensures UserByIdentity(s, issuer, subject) == None && IdentityAt(s, issuer, subject) == |s.identities|
  {
    hide UserAt;
    var k := IdentityAt(s, issuer, subject);
    assert k < |s.identities| ==> s.identities[k] in s.identities && Bound(s, issuer, subject, s.identities[k].userId);
  }

  lemma SomebodyBound(s: Store, issuer: Text, subject: Text, other: Id) returns (u: User)
    requires StoreSound(s) && Bound(s, issuer, subject, other)
    ensures u in s.users && u.id == other
  {
    hide Lower, OneToOne;
    var i :| i in s.identities && i.issuer == issuer && i.subject == subject && i.userId == other;
    u :| u in s.users && u.id == i.userId;
  }

  /** A first binding of a deserving user goes through. */
  lemma FirstBinding(s: Store, claims: Claims, at: Time, user: User)
    requires StoreSound(s) && Deserves(s, claims, user)
    requires forall other :: !Bound(s, claims.issuer, claims.subject, other)
    ensures Resolve(s, claims, at).user == Some(user.id)
  {
    hide Lower, Trim, UserAt, UserByEmail, IdentityForUser, StoreSound, Bound;
    NobodyBound(s, claims.issuer, claims.subject);
    UserOfEmail(s, user, claims.email.value);
    NoIdentityForUser(s, claims.issuer, user.id);
    var i := NewIdentity(claims, user, at);
    NewBindingFound(s, claims, i, user);
  }

  lemma NoIdentityForUser(s: Store, issuer: Text, userId: Id)
    requires forall i | i in s.identities :: !(i.issuer == issuer && i.userId == userId)
    ensures IdentityForUser(s, issuer, userId) == None
  {
  }

  lemma NewBindingFound(s: Store, claims: Claims, i: Identity, user: User)
    requires StoreSound(s) && user in s.users
    requires i.issuer == claims.issuer && i.subject == claims.subject && i.userId == user.id
    requires IdentityAt(s, claims.issuer, claims.subject) == |s.identities|
    requires forall x | x in s.identities :: !(x.issuer == claims.issuer && x.userId == user.id)
    ensures UserByIdentity(Bind(s, i), claims.issuer, claims.subject) == Some(user)
  {
    hide UserAt, StoreSound;
    forall x | x in s.identities ensures !(x.issuer == i.issuer && x.subject == i.subject) {
      var n :| 0 <= n < |s.identities| && s.identities[n] == x;
    }
    var after := Bind(s, i);
    assert after.identities == s.identities + [i] && after.users == s.users;
    var n, k := |s.identities|, IdentityAt(after, claims.issuer, claims.subject);
    assert forall j | 0 <= j < n :: after.identities[j] == s.identities[j];
    assert after.identities[n] == i && k == n;
    SameUsers(s, after, user.id);
    UserById(s, user);
  }

  lemma SameUsers(s: Store, t: Store, id: Id)
    requires s.users == t.users
    ensures UserAt(s, id) == UserAt(t, id)
  {
  }

  /** The claims are resolved to a user exactly when they stand for that user. */
  lemma ResolvesExactly(s: Store, claims: Claims, at: Time, userId: Id)
    requires StoreSound(s)
    ensures Resolve(s, claims, at).user == Some(userId) <==> exists u :: Deserves(s, claims, u) && u.id == userId
  {
    hide Resolve, StoreSound, Bound, Lower, Trim;
    if u :| Deserves(s, claims, u) && u.id == userId {
      DeservingResolved(s, claims, at, u);
    }
    if Resolve(s, claims, at).user == Some(userId) {
      var u := ResolvedDeserves(s, claims, at, userId);
    }
  }

  lemma DeservingResolved(s: Store, claims: Claims, at: Time, u: User)
    requires StoreSound(s) && Deserves(s, claims, u)
    ensures Resolve(s, claims, at).user == Some(u.id)
  {
    hide StoreSound, Bound, Lower, Trim, Bind, UserByIdentity, UserByEmail, IdentityForUser;
    if Bound(s, claims.issuer, claims.subject, u.id) {
      BoundUser(s, claims.issuer, claims.subject, u);
    } else {
      FirstBinding(s, claims, at, u);
    }
  }

  lemma ResolvedDeserves(s: Store, claims: Claims, at: Time, userId: Id) returns (u: User)
    requires StoreSound(s) && Resolve(s, claims, at).user == Some(userId)
    ensures Deserves(s, claims, u) && u.id == userId
  {
    hide StoreSound, Lower, Trim, Bind, UserAt;
    var bound := UserByIdentity(s, claims.issuer, claims.subject);
    if bound.Some? {
      u := bound.value;
      IdentityUser(s, claims.issuer, claims.subject);
    } else {
      forall other ensures !Bound(s, claims.issuer, claims.subject, other) {
        if Bound(s, claims.issuer, claims.subject, other) {
          var somebody := SomebodyBound(s, claims.issuer, claims.subject, other);
          BoundUser(s, claims.issuer, claims.subject, somebody);
        }
      }
      u := UserByEmail(s, claims.email.value).value;
      NobodyBound(s, claims.issuer, claims.subject);
      BoundElsewhere(s, claims, u, at);
    }
  }

  lemma IdentityUser(s: Store, issuer: Text, subject: Text)
    requires UserByIdentity(s, issuer, subject).Some?
    ensures var u := UserByIdentity(s, issuer, subject).value; u in s.users && Bound(s, issuer, subject, u.id)
  {
    var k := IdentityAt(s, issuer, subject);
    assert s.identities[k] in s.identities;
  }

  /** A user with another binding at the issuer is not bound again. */
  lemma BoundElsewhere(s: Store, claims: Claims, u: User, at: Time)
    requires claims.email.Some? && IdentityAt(s, claims.issuer, claims.subject) == |s.identities|
    ensures (exists i | i in s.identities :: i.issuer == claims.issuer && i.userId == u.id) ==>
      UserByIdentity(Bind(s, NewIdentity(claims, u, at)), claims.issuer, claims.subject) == None
  {
    hide Lower, Trim, UserAt;
  }

  /** A login whose transaction is taken is resolved to a user exactly when its claims are well-formed, come from its
      issuer and stand for that user, and is refused otherwise. */
  lemma WhenResolved(s: State, login: nat, claims: Claims, userId: Id)
    requires StoreSound(s.store) && login < |s.logins| && s.logins[login].Consumed?
    ensures var l, after := s.logins[login], Next(s, ResolveStep(login, claims)).logins[login];
      && (after == Resolved(l.transaction, userId) <==>
            && claims.issuer == l.issuer && 0 < |Trim(claims.subject)| <= 512
            && (claims.email.Some? ==> |claims.email.value| <= 320)
            && exists u :: Deserves(s.store, Trimmed(claims), u) && u.id == userId)
      && (after == Refused || (after.Resolved? && after.transaction == l.transaction))
  {
    hide Resolve, Trim, StoreSound, Deserves;
    ResolvesExactly(s.store, Trimmed(claims), s.logins[login].at, userId);
  }

  // ---------- the store stays sound ----------

  lemma ResolveKeepsSound(s: Store, claims: Claims, at: Time)
    requires StoreSound(s)
    ensures StoreSound(Resolve(s, claims, at).store)
  {
    hide Lower, Trim, Resolve, OneToOne;
    ResolveBinds(s, claims, at);
    var before, after := s.identities, Resolve(s, claims, at).store.identities;
    forall i | i in after ensures exists u | u in s.users :: u.id == i.userId {
      var k :| 0 <= k < |after| && after[k] == i;
      if k < |before| {
        assert after[k].(lastLoginAt := before[k].lastLoginAt) == before[k];
        assert before[k] in before && after[k].userId == before[k].userId;
      }
    }
  }

  lemma AddUserKeepsSound(s: Store, user: User)
    requires StoreSound(s)
    ensures StoreSound(AddUser(s, user))
  {
    hide Lower, OneToOne;
    var after := AddUser(s, user);
    forall u | u in s.users ensures u in after.users {
    }
  }

  lemma SetActiveKeepsSound(s: Store, userId: Id, active: bool)
    requires StoreSound(s)
    ensures StoreSound(SetActive(s, userId, active))
  {
    hide Lower, OneToOne;
    var after := SetActive(s, userId, active);
    forall i | i in s.identities ensures exists u | u in after.users :: u.id == i.userId {
      var u :| u in s.users && u.id == i.userId;
      var k :| 0 <= k < |s.users| && s.users[k] == u;
      assert after.users[k] in after.users && after.users[k].id == u.id;
    }
  }

  lemma StepKeepsSound(s: State, step: Step)
    requires StoreSound(s.store)
    ensures StoreSound(Next(s, step).store)
  {
    hide StoreSound, Resolve, SetActive, AddUser, ActiveTransaction, ValidClaims, Trim, BeginLogin, Consume;
    match step
    case Begin(issuer, tokenHash, stateHash, expiresAt, at) =>
      var t := LoginTransaction(s.nextId, issuer, tokenHash, stateHash, expiresAt, None);
      BeginKeepsRest(s.store, t, at);
      SoundLooksAtUsers(s.store, BeginLogin(s.store, t, at));
    case Load(_, _, _, _) =>
    case ConsumeStep(login) =>
      if login < |s.logins| && s.logins[login].Loaded? {
        ConsumeKeepsRest(s.store, s.logins[login].transaction, s.logins[login].at);
        SoundLooksAtUsers(s.store, Consume(s.store, s.logins[login].transaction, s.logins[login].at));
      }
    case ResolveStep(login, claims) =>
      if login < |s.logins| && s.logins[login].Consumed? {
        ResolveKeepsSound(s.store, claims.(subject := Trim(claims.subject)), s.logins[login].at);
      }
    case SessionStep(login) =>
      SoundLooksAtUsers(s.store, Next(s, step).store);
    case StatusStep(userId, active) =>
      SetActiveKeepsSound(s.store, userId, active);
    case AddUserStep(user) =>
      AddUserKeepsSound(s.store, user);
  }

  lemma SoundLooksAtUsers(s: Store, t: Store)
    requires StoreSound(s) && t.users == s.users && t.identities == s.identities
    ensures StoreSound(t)
  {
    hide Lower, OneToOne;
  }

  /** Over every interleaving ids, e-mails and bindings stay unique and bindings stay to users there are. */
  lemma {:induction false} RunKeepsSound(s: State, steps: seq<Step>)
    requires StoreSound(s.store)
    ensures StoreSound(Run(s, steps).store)
    decreases |steps|
  {
    hide Next, StoreSound;
    if steps != [] {
      StepKeepsSound(s, steps[0]);
      RunKeepsSound(Next(s, steps[0]), steps[1..]);
    }
  }
}
