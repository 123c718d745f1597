/** Refresh-token families: rotation, reuse detection, and the revocations. Requests are handled
    one after the other, each in its own transaction that is rolled back when it fails. The
    token hash is symbolic, hence injective. */
module RefreshTokens {
  import opened Options
  import opened Runs

  /** The stored hash of a token. */
  datatype Digest = Digest(token: int)

  datatype Session = Session(id: int, user: int, tenant: Option<int>, family: int, expiresAt: int, revokedAt: Option<int>)

  /** The session table, by its unique hash column. */
  type Sessions = map<Digest, Session>

  // ---- repository ----

  /** A lookup by hash within the tenant partition (`None` is the platform's). */
  predicate Found(rows: Sessions, tenant: Option<int>, token: int) {
    Digest(token) in rows && rows[Digest(token)].tenant == tenant
  }

  function Revoked(row: Session, now: int): Session {
    if row.revokedAt.None? then row.(revokedAt := Some(now)) else row
  }

  function RevokeFamily(rows: Sessions, tenant: Option<int>, family: int, now: int): Sessions {
    map d | d in rows :: if rows[d].tenant == tenant && rows[d].family == family then Revoked(rows[d], now) else rows[d]
  }

  function RevokeAllForUser(rows: Sessions, tenant: Option<int>, user: int, now: int): Sessions {
    map d | d in rows :: if rows[d].tenant == tenant && rows[d].user == user then Revoked(rows[d], now) else rows[d]
  }

  function RevokeById(rows: Sessions, tenant: Option<int>, user: int, id: int, now: int): Sessions {
    map d | d in rows ::
      if rows[d].tenant == tenant && rows[d].id == id && rows[d].user == user then Revoked(rows[d], now) else rows[d]
  }

  // ---- requests ----

  /** What a refresh request carries and what its environment supplies: a fresh token and row id,
      the new expiry, and whether the account is still active. */
  datatype Attempt = Attempt(tenant: Option<int>, token: int, now: int, active: bool, newToken: int, newId: int, newExpiry: int)

  datatype Action =
    | Issue(user: int, tenant: Option<int>, token: int, family: int, id: int, expiresAt: int)
    | Refresh(attempt: Attempt)
    | Logout(tenant: Option<int>, token: int, now: int)
    | RevokeSession(tenant: Option<int>, user: int, id: int, now: int)
    | ForceLogout(tenant: Option<int>, user: int, now: int)

  /** The presented token was rotated away or revoked: the theft signal. */
  predicate Reused(rows: Sessions, a: Attempt) {
    Found(rows, a.tenant, a.token) && rows[Digest(a.token)].revokedAt.Some?
  }

  /** The refresh yields tokens. */
  predicate Redeems(rows: Sessions, a: Attempt) {
    && Found(rows, a.tenant, a.token)
    && rows[Digest(a.token)].revokedAt.None?
    && rows[Digest(a.token)].expiresAt > a.now
    && a.active
    && Digest(a.newToken) !in rows
  }

  function Rotated(rows: Sessions, a: Attempt): Sessions
    requires Digest(a.token) in rows
  {
    var row := rows[Digest(a.token)];
    rows[Digest(a.token) := row.(revokedAt := Some(a.now))]
        [Digest(a.newToken) := Session(a.newId, row.user, row.tenant, row.family, a.newExpiry, None)]
  }

  function Step(rows: Sessions, a: Action): Sessions {
    match a
    case Issue(user, tenant, token, family, id, expiresAt) =>
      if Digest(token) in rows || (exists d :: d in rows && rows[d].family == family) then rows
      else rows[Digest(token) := Session(id, user, tenant, family, expiresAt, None)]
    case Refresh(t) =>
      if Reused(rows, t) then RevokeFamily(rows, t.tenant, rows[Digest(t.token)].family, t.now)
      else if Redeems(rows, t) then Rotated(rows, t)
      else rows
    case Logout(tenant, token, now) =>
      if Found(rows, tenant, token) then rows[Digest(token) := Revoked(rows[Digest(token)], now)] else rows
    case RevokeSession(tenant, user, id, now) => RevokeById(rows, tenant, user, id, now)
    case ForceLogout(tenant, user, now) => RevokeAllForUser(rows, tenant, user, now)
  }

  class AuthService {
    var sessions: Sessions

    constructor ()
      ensures sessions == map[]
    {
      sessions := map[];
    }

    /** `txn` is the request's transaction. Every failure rolls it back; the family revocation
        survives because it commits on its own. */
    method Refresh(presented: Option<int>, a: Attempt) returns (token: Option<int>)
      requires presented.Some? ==> presented.value == a.token
      modifies this
      ensures sessions == if presented.Some? then Step(old(sessions), Action.Refresh(a)) else old(sessions)
      ensures token == if presented.Some? && Redeems(old(sessions), a) then Some(a.newToken) else None
      ensures Tight(old(sessions)) ==> Tight(sessions)
    {
      if Tight(sessions) { TightStep(sessions, Action.Refresh(a)); }
      token := None;
      if presented.None? { return; }
      var txn := sessions;
      if !Found(txn, a.tenant, presented.value) { return; }
      var row := txn[Digest(presented.value)];
      if row.revokedAt.Some? {
        sessions := RevokeFamily(sessions, a.tenant, row.family, a.now);
        return;
      }
      if row.expiresAt <= a.now { return; }
      if !a.active { return; }
      txn := txn[Digest(presented.value) := row.(revokedAt := Some(a.now))];
      if Digest(a.newToken) in txn { return; }
      txn := txn[Digest(a.newToken) := Session(a.newId, row.user, row.tenant, row.family, a.newExpiry, None)];
      sessions := txn;
      token := Some(a.newToken);
    }

    method Logout(presented: Option<int>, tenant: Option<int>, now: int)
      modifies this
      ensures sessions == if presented.Some? then Step(old(sessions), Action.Logout(tenant, presented.value, now))
                          else old(sessions)
    {
      if presented.Some? && Found(sessions, tenant, presented.value) {
        var row := sessions[Digest(presented.value)];
        if row.revokedAt.None? {
          sessions := sessions[Digest(presented.value) := row.(revokedAt := Some(now))];
        }
      }
    }
  }

  // ---- families ----

  /** Each family has one user and one tenant, and at most one session that is not revoked. */
  ghost predicate Tight(rows: Sessions) {
    forall d, e :: d in rows && e in rows && rows[d].family == rows[e].family ==>
      && rows[d].user == rows[e].user && rows[d].tenant == rows[e].tenant
      && (rows[d].revokedAt.None? && rows[e].revokedAt.None? ==> d == e)
  }

  /** The same rows, of the same owners, with perhaps more of them revoked. */
  ghost predicate OnlyRevokes(rows: Sessions, rows': Sessions) {
    && rows'.Keys == rows.Keys
    && forall d :: d in rows ==>
      && rows'[d].user == rows[d].user && rows'[d].tenant == rows[d].tenant && rows'[d].family == rows[d].family
      && (rows'[d].revokedAt.None? ==> rows[d].revokedAt.None?)
  }

  lemma RevokingKeepsTight(rows: Sessions, rows': Sessions)
    requires Tight(rows) && OnlyRevokes(rows, rows')
    ensures Tight(rows')
  {
  }

  lemma RotationKeepsTight(rows: Sessions, a: Attempt)
    requires Tight(rows) && Redeems(rows, a)
    ensures Tight(Rotated(rows, a))
  {
  }

  lemma TightStep(rows: Sessions, a: Action)
    requires Tight(rows)
    ensures Tight(Step(rows, a))
  {
    if a.Refresh? && Redeems(rows, a.attempt) {
      RotationKeepsTight(rows, a.attempt);
    } else if !a.Issue? {
      RevokingKeepsTight(rows, Step(rows, a));
    }
  }

  /** Over any serial run of logins, refreshes, logouts and revocations. */
  lemma FamiliesStayTight(acts: seq<Action>)
    ensures var rows := Run(Step, map[], acts);
            && Tight(rows)
            && forall d, e :: d in rows && e in rows && rows[d].family == rows[e].family ==>
                 && rows[d].user == rows[e].user && rows[d].tenant == rows[e].tenant
                 && (rows[d].revokedAt == None && rows[e].revokedAt == None ==> d == e)
  {
    forall rows, a | Tight(rows) ensures Tight(Step(rows, a)) { TightStep(rows, a); }
    Invariant(Step, Tight, map[], acts);
  }

  /** Nothing deletes a row, moves it to another family, or takes a revocation back. */
  ghost predicate Spent(rows: Sessions, d: Digest) {
    d in rows && rows[d].revokedAt.Some?
  }

  lemma {:induction false} SpentForEver(rows: Sessions, acts: seq<Action>, d: Digest)
    requires Spent(rows, d)
    ensures Spent(Run(Step, rows, acts), d)
    decreases |acts|
  {
    if acts != [] {
      assert Spent(Step(rows, acts[0]), d);
      SpentForEver(Step(rows, acts[0]), acts[1..], d);
    }
  }

  /** A refresh token is successfully redeemed at most once, whoever presents it again. */
  lemma RedeemedOnce(rows: Sessions, first: Attempt, between: seq<Action>, second: Attempt)
    requires Redeems(rows, first) && second.token == first.token
    ensures !Redeems(Run(Step, Step(rows, Refresh(first)), between), second)
  {
    assert Digest(first.newToken) != Digest(first.token);
    assert Spent(Step(rows, Refresh(first)), Digest(first.token));
    SpentForEver(Step(rows, Refresh(first)), between, Digest(first.token));
  }

  /** A redeemed token is replaced by one of the same user, tenant and family, which is the
      family's only session still good; everyone else's sessions are untouched. */
  lemma RotationHandsOver(rows: Sessions, a: Attempt)
    requires Tight(rows) && Redeems(rows, a)
    ensures var rows' := Step(rows, Refresh(a));
            var row, row' := rows[Digest(a.token)], rows'[Digest(a.newToken)];
            && row'.user == row.user && row'.tenant == row.tenant && row'.family == row.family
            && row'.expiresAt == a.newExpiry
            && (forall d :: d in rows' && rows'[d].family == row.family && rows'[d].revokedAt.None? <==> d == Digest(a.newToken))
            && (forall d :: d in rows && rows[d].family != row.family ==> d in rows' && rows'[d] == rows[d])
  {
  }

  /** The family exists and all of it is revoked. */
  ghost predicate Buried(rows: Sessions, family: int) {
    && (exists d :: d in rows && rows[d].family == family)
    && forall d :: d in rows && rows[d].family == family ==> rows[d].revokedAt.Some?
  }

  lemma StepKeepsBuried(rows: Sessions, a: Action, family: int)
    requires Buried(rows, family)
    ensures Buried(Step(rows, a), family)
  {
    var d :| d in rows && rows[d].family == family;
    assert d in Step(rows, a) && Step(rows, a)[d].family == family;
  }

  lemma {:induction false} BuriedForEver(rows: Sessions, acts: seq<Action>, family: int)
    requires Buried(rows, family)
    ensures Buried(Run(Step, rows, acts), family)
    decreases |acts|
  {
    if acts != [] {
      StepKeepsBuried(rows, acts[0], family);
      BuriedForEver(Step(rows, acts[0]), acts[1..], family);
    }
  }

  /** Once a spent token is presented, no token of its family, old or new, ever yields tokens
      again, although the request that presented it failed and was rolled back. */
  lemma TheftBuriesTheFamily(before: seq<Action>, theft: Attempt, after: seq<Action>, later: Attempt)
    ensures var rows := Run(Step, map[], before);
            var rows' := Run(Step, Step(rows, Refresh(theft)), after);
            Reused(rows, theft) && Digest(later.token) in rows' &&
            rows'[Digest(later.token)].family == rows[Digest(theft.token)].family
            ==> !Redeems(rows', later)
  {
    var rows := Run(Step, map[], before);
    FamiliesStayTight(before);
    if Reused(rows, theft) {
      var family := rows[Digest(theft.token)].family;
      var rows1 := Step(rows, Refresh(theft));
      assert Digest(theft.token) in rows1 && rows1[Digest(theft.token)].family == family;
      assert Buried(rows1, family);
      BuriedForEver(rows1, after, family);
    }
  }

  // ---- what each request does, in plain terms ----

  /** A refresh yields tokens exactly when the presented token belongs to a session of the tenant that
      is neither revoked nor expired, of an account still active. */
  lemma RedeemsInPlainTerms(rows: Sessions, a: Attempt)
    requires Digest(a.newToken) !in rows
    ensures Redeems(rows, a) <==>
      && Digest(a.token) in rows
      && var row := rows[Digest(a.token)];
         row.tenant == a.tenant && row.revokedAt == None && a.now < row.expiresAt && a.active
  {
  }

  /** A login's token works from the start: it redeems in its tenant until it expires. */
  lemma IssuedTokenWorks(rows: Sessions, user: int, tenant: Option<int>, token: int, family: int, id: int, expiresAt: int, a: Attempt)
    requires Digest(token) !in rows && forall d :: d in rows ==> rows[d].family != family
    requires a.token == token && Digest(a.newToken) !in rows && a.newToken != token
    ensures var rows' := Step(rows, Issue(user, tenant, token, family, id, expiresAt));
            && rows' == rows[Digest(token) := Session(id, user, tenant, family, expiresAt, None)]
            && (Redeems(rows', a) <==> a.tenant == tenant && a.now < expiresAt && a.active)
  {
  }

  /** So does the token a rotation hands out, and the one it replaces no more. */
  lemma RotatedTokenWorks(rows: Sessions, first: Attempt, next: Attempt)
    requires Redeems(rows, first) && next.token == first.newToken
    requires Digest(next.newToken) !in Step(rows, Refresh(first))
    ensures Redeems(Step(rows, Refresh(first)), next) <==>
            next.tenant == first.tenant && next.now < first.newExpiry && next.active
  {
  }

  /** A failed refresh changes nothing, unless it presents a revoked token. */
  lemma FailedRefresh(rows: Sessions, a: Attempt)
    requires !Redeems(rows, a)
    ensures !(Digest(a.token) in rows && rows[Digest(a.token)].tenant == a.tenant && rows[Digest(a.token)].revokedAt.Some?)
            ==> Step(rows, Refresh(a)) == rows
  {
  }

  /** The four revocations, by which sessions they take: a reused token its family's, a forced logout
      its user's, a revoked session itself if it is the user's own, a logout the one presented. Each
      revokes those not revoked before, and leaves the others as they were. */
  lemma RevocationsAreExact(rows: Sessions, theft: Attempt, tenant: Option<int>, user: int, id: int, token: int, now: int)
    ensures Digest(theft.token) in rows && rows[Digest(theft.token)].tenant == theft.tenant && rows[Digest(theft.token)].revokedAt.Some? ==>
              Step(rows, Refresh(theft)) ==
              map d | d in rows ::
                if rows[d].tenant == theft.tenant && rows[d].family == rows[Digest(theft.token)].family && rows[d].revokedAt == None
                then rows[d].(revokedAt := Some(theft.now)) else rows[d]
    ensures Step(rows, ForceLogout(tenant, user, now)) ==
            map d | d in rows ::
              if rows[d].tenant == tenant && rows[d].user == user && rows[d].revokedAt == None
              then rows[d].(revokedAt := Some(now)) else rows[d]
    ensures Step(rows, RevokeSession(tenant, user, id, now)) ==
            map d | d in rows ::
              if rows[d].tenant == tenant && rows[d].user == user && rows[d].id == id && rows[d].revokedAt == None
              then rows[d].(revokedAt := Some(now)) else rows[d]
    ensures Step(rows, Logout(tenant, token, now)) ==
            if Digest(token) in rows && rows[Digest(token)].tenant == tenant && rows[Digest(token)].revokedAt == None
            then rows[Digest(token) := rows[Digest(token)].(revokedAt := Some(now))] else rows
  {
  }

  lemma RevokedNeverRedeems(rows: Sessions, after: seq<Action>, later: Attempt)
    requires Digest(later.token) in rows && rows[Digest(later.token)].revokedAt.Some?
    ensures !Redeems(Run(Step, rows, after), later)
  {
    SpentForEver(rows, after, Digest(later.token));
  }

  /** After a forced logout no session the user then had in that tenant ever yields tokens again. */
  lemma ForcedLogoutIsFinal(rows: Sessions, tenant: Option<int>, user: int, now: int, after: seq<Action>, later: Attempt)
    requires Digest(later.token) in rows && rows[Digest(later.token)].tenant == tenant && rows[Digest(later.token)].user == user
    ensures !Redeems(Run(Step, Step(rows, ForceLogout(tenant, user, now)), after), later)
  {
    RevokedNeverRedeems(Step(rows, ForceLogout(tenant, user, now)), after, later);
  }

  /** Nor does a session revoked by its user. */
  lemma RevokedSessionIsFinal(rows: Sessions, tenant: Option<int>, user: int, id: int, now: int, after: seq<Action>, later: Attempt)
    requires Digest(later.token) in rows && rows[Digest(later.token)].id == id
    requires rows[Digest(later.token)].tenant == tenant && rows[Digest(later.token)].user == user
    ensures !Redeems(Run(Step, Step(rows, RevokeSession(tenant, user, id, now)), after), later)
  {
    RevokedNeverRedeems(Step(rows, RevokeSession(tenant, user, id, now)), after, later);
  }

  /** Nor one logged out of. */
  lemma LogoutIsFinal(rows: Sessions, tenant: Option<int>, now: int, after: seq<Action>, later: Attempt)
    requires Digest(later.token) in rows && rows[Digest(later.token)].tenant == tenant
    ensures !Redeems(Run(Step, Step(rows, Logout(tenant, later.token, now)), after), later)
  {
    RevokedNeverRedeems(Step(rows, Logout(tenant, later.token, now)), after, later);
  }

  /** The request revokes or rotates away this session. */
  predicate Takes(rows: Sessions, a: Action, d: Digest)
    requires d in rows
  {
    match a
    case Issue(_, _, _, _, _, _) => false
    case Refresh(t) =>
      Digest(t.token) in rows && rows[Digest(t.token)].tenant == t.tenant &&
      (if rows[Digest(t.token)].revokedAt.Some? then rows[d].family == rows[Digest(t.token)].family && rows[d].tenant == t.tenant
       else d == Digest(t.token) && Redeems(rows, t))
    case Logout(tenant, token, _) => d == Digest(token) && rows[d].tenant == tenant
    case RevokeSession(tenant, user, id, _) => rows[d].tenant == tenant && rows[d].user == user && rows[d].id == id
    case ForceLogout(tenant, user, _) => rows[d].tenant == tenant && rows[d].user == user
  }

  /** No request of the run takes the session. */
  ghost predicate NeverTaken(rows: Sessions, acts: seq<Action>, d: Digest)
    requires d in rows
    decreases |acts|
  {
    acts == [] || (!Takes(rows, acts[0], d) && d in Step(rows, acts[0]) && NeverTaken(Step(rows, acts[0]), acts[1..], d))
  }

  lemma UntakenStep(rows: Sessions, a: Action, d: Digest)
    requires d in rows && !Takes(rows, a, d)
    ensures d in Step(rows, a) && Step(rows, a)[d] == rows[d]
  {
  }

  lemma TakenStep(rows: Sessions, a: Action, d: Digest)
    requires d in rows && Takes(rows, a, d)
    ensures Spent(Step(rows, a), d)
  {
  }

  lemma {:induction false} StaysOrIsSpent(rows: Sessions, acts: seq<Action>, d: Digest)
    requires d in rows
    ensures var rows' := Run(Step, rows, acts);
            if NeverTaken(rows, acts, d) then d in rows' && rows'[d] == rows[d] else Spent(rows', d)
    decreases |acts|
  {
    if acts != [] {
      if Takes(rows, acts[0], d) {
        TakenStep(rows, acts[0], d);
        SpentForEver(Step(rows, acts[0]), acts[1..], d);
      } else {
        UntakenStep(rows, acts[0], d);
        StaysOrIsSpent(Step(rows, acts[0]), acts[1..], d);
      }
    }
  }

  /** After any run a good token redeems, in its tenant and until it expires, if and only if no
      request of the run took its session: nothing else ends a session, and nothing revives one. */
  lemma GoodUntilTaken(rows: Sessions, acts: seq<Action>, later: Attempt)
    requires Digest(later.token) in rows && rows[Digest(later.token)].revokedAt == None
    requires Digest(later.newToken) !in Run(Step, rows, acts)
    ensures var row := rows[Digest(later.token)];
            Redeems(Run(Step, rows, acts), later) <==>
            NeverTaken(rows, acts, Digest(later.token)) && row.tenant == later.tenant && later.now < row.expiresAt && later.active
  {
    StaysOrIsSpent(rows, acts, Digest(later.token));
  }
}
