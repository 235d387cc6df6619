// The fleet proxy as a protocol (src/bin/fleet.rs): boot, serve and child exit
// interleaved with requests that snapshot the tables and are sent later.
module FleetProtocol {
  import opened Prelude
  import opened FleetTenants
  import Handoff

  // ------------------------------------------------------------------
  // Edge authentication
  // ------------------------------------------------------------------

  predicate IsBlank(c: char) {
    c == ' ' || c == '\t'
  }

  /** The characters of a header value that can be read as text at all. */
  predicate IsHeaderChar(c: char) {
    ' ' <= c <= '~' || c == '\t'
  }

  /** Of the readable characters, the blanks are those that trimming and splitting at whitespace mean. */
  lemma BlankIff(c: char)
    ensures IsHeaderChar(c) <==> 32 <= c as int <= 126 || c as int == 9
    ensures IsBlank(c) <==> IsHeaderChar(c) && Handoff.IsWhitespace(c)
  {
  }

  function CutAtBlank(v: string): Option<(string, string)> {
    if v == "" then None
    else if IsBlank(v[0]) then Some(("", v[1..]))
    else match CutAtBlank(v[1..])
      case None => None
      case Some(r) => Some(([v[0]] + r.0, r.1))
  }

  /** The token of an `Authorization` header, if it is a bearer header. */
  function BearerFromHeader(header: Option<string>): Option<EdgeToken> {
    if header.None? || !(forall c | c in header.value :: IsHeaderChar(c)) then None
    else
      match CutAtBlank(Trim(header.value, IsBlank))
      case None => None
      case Some((scheme, rest)) =>
        var token := Trim(rest, IsBlank);
        if Lower(scheme) == "bearer" && token != "" then Some(EdgeToken(token)) else None
  }

  lemma {:induction false} CutAtBlankOf(scheme: string, blank: char, rest: string)
    requires IsBlank(blank) && forall c | c in scheme :: !IsBlank(c)
    ensures CutAtBlank(scheme + [blank] + rest) == Some((scheme, rest))
  {
    var v := scheme + [blank] + rest;
    if scheme == "" {
      assert v[1..] == rest;
    } else {
      assert v[1..] == scheme[1..] + [blank] + rest;
      assert scheme[0] in scheme && scheme == [scheme[0]] + scheme[1..];
      CutAtBlankOf(scheme[1..], blank, rest);
    }
  }

  lemma {:induction false} CutAtBlankParts(v: string) returns (blank: char)
    requires CutAtBlank(v).Some?
    ensures IsBlank(blank) && v == CutAtBlank(v).value.0 + [blank] + CutAtBlank(v).value.1
  {
    if IsBlank(v[0]) {
      blank := v[0];
    } else {
      blank := CutAtBlankParts(v[1..]);
    }
  }

  ghost predicate BearerShape(v: string, token: string, pre: string, scheme: string, gap: string, post: string) {
    && v == pre + scheme + gap + token + post
    && AllOf(pre, IsBlank) && AllOf(gap, IsBlank) && AllOf(post, IsBlank)
    && Lower(scheme) == "bearer" && gap != "" && token != "" && Trimmed(token, IsBlank)
  }

  lemma SchemeHasNoBlanks(scheme: string)
    requires Lower(scheme) == "bearer"
    ensures |scheme| == 6 && forall c | c in scheme :: !IsBlank(c)
  {
    assert |scheme| == |Lower(scheme)|;
    forall c | c in scheme ensures !IsBlank(c) {
      var i :| 0 <= i < |scheme| && scheme[i] == c;
      assert Lower(scheme)[i] == LowerChar(c);
    }
  }

  lemma BearerShapeIsRead(v: string, token: string, pre: string, scheme: string, gap: string, post: string)
    requires BearerShape(v, token, pre, scheme, gap, post) && forall c | c in v :: IsHeaderChar(c)
    ensures BearerFromHeader(Some(v)) == Some(EdgeToken(token))
  {
    SchemeHasNoBlanks(scheme);
    var core := scheme + gap + token;
    assert core[0] == scheme[0] && scheme[0] in scheme && core[|core| - 1] == token[|token| - 1];
    assert v == pre + core + post;
    TrimOf(pre, core, post, IsBlank);
    assert core == scheme + [gap[0]] + (gap[1..] + token);
    CutAtBlankOf(scheme, gap[0], gap[1..] + token);
    assert gap[1..] + token == gap[1..] + token + [];
    TrimOf(gap[1..], token, [], IsBlank);
  }

  lemma BearerReadHasShape(v: string, token: string) returns (pre: string, scheme: string, gap: string, post: string)
    requires BearerFromHeader(Some(v)) == Some(EdgeToken(token))
    ensures BearerShape(v, token, pre, scheme, gap, post)
  {
    var core, blank, rest;
    core, scheme, blank, rest := BearerReadParts(v, token);
    var before, after := TrimParts(v, IsBlank);
    var gap', post' := TrimParts(rest, IsBlank);
    pre, gap, post := before, [blank] + gap', post' + after;
    AllOfAppend([blank], gap');
    AllOfAppend(post', after);
    Regroup(v, before, core, after, scheme, [blank], rest, gap', token, post');
  }

  lemma AllOfAppend(a: string, b: string)
    requires AllOf(a, IsBlank) && AllOf(b, IsBlank)
    ensures AllOf(a + b, IsBlank)
  {
  }

  lemma Regroup(v: string, pre: string, core: string, post: string, scheme: string, blank: string,
                rest: string, gap: string, token: string, post': string)
    requires v == pre + core + post && core == scheme + blank + rest && rest == gap + token + post'
    ensures v == pre + scheme + (blank + gap) + token + (post' + post)
  {
  }

  lemma BearerReadParts(v: string, token: string) returns (core: string, scheme: string, blank: char, rest: string)
    requires BearerFromHeader(Some(v)) == Some(EdgeToken(token))
    ensures core == Trim(v, IsBlank) == scheme + [blank] + rest && IsBlank(blank)
    ensures token == Trim(rest, IsBlank) && token != "" && Lower(scheme) == "bearer"
  {
    core := Trim(v, IsBlank);
    scheme, rest := CutAtBlank(core).value.0, CutAtBlank(core).value.1;
    blank := CutAtBlankParts(core);
  }

  /**
   * A header yields a token exactly when it is the word "bearer" in any case,
   * at least one blank, and the token, blanks around it aside.
   */
  lemma BearerIff(v: string, token: string)
    ensures BearerFromHeader(Some(v)) == Some(EdgeToken(token)) <==>
      && (forall c | c in v :: IsHeaderChar(c))
      && exists pre, scheme, gap, post :: BearerShape(v, token, pre, scheme, gap, post)
  {
    if BearerFromHeader(Some(v)) == Some(EdgeToken(token)) {
      var pre, scheme, gap, post := BearerReadHasShape(v, token);
    } else if (forall c | c in v :: IsHeaderChar(c)) {
      forall pre, scheme, gap, post | BearerShape(v, token, pre, scheme, gap, post) ensures false {
        BearerShapeIsRead(v, token, pre, scheme, gap, post);
      }
    }
  }

  lemma BearerHeaderReads(token: string)
    requires token != "" && forall c | c in token :: IsHeaderChar(c) && !IsBlank(c)
    ensures BearerFromHeader(Some("Bearer " + token)) == Some(EdgeToken(token))
  {
    var v := "Bearer " + token;
    assert v == "" + "Bearer" + " " + token + "";
    assert Lower("Bearer") == "bearer";
    assert token[0] in token && token[|token| - 1] in token;
    BearerShapeIsRead(v, token, "", "Bearer", " ", "");
  }

  // ------------------------------------------------------------------
  // The protocol
  // ------------------------------------------------------------------

  /** What the operator asked for, and the identifiers drawn for it. */
  datatype Plan = Plan(users: seq<string>, root: Path, basePort: Port, uuids: seq<string>) {
    ghost predicate Valid() {
      Provisionable(users, basePort) && 2 * |users| <= |uuids| && Distinct(uuids)
    }

    ghost function Provisioned(): Tables
      requires Valid()
    {
      ProvisionedTables(users, root, basePort, uuids, |users|)
    }
  }

  /** A request admitted under the read lock, not necessarily sent yet. */
  datatype Request = Request(token: EdgeToken, pathUser: string, port: Port, bearer: CoreBearer)

  datatype Phase = Booting(pending: set<string>) | Serving | Stopped

  datatype State = State(
    phase: Phase, tables: Tables, children: seq<string>,
    exited: set<string>, forgotten: set<string>,
    inflight: map<nat, Request>, sent: seq<Request>)

  datatype Step =
    | CoreReady(userId: string)
    | CoreFails(userId: string)
    | StartServing
    | Arrive(id: nat, header: Option<string>, pathUser: string)
    | Send(id: nat)
    | CoreExits(userId: string)
    | ForgetInstance(userId: string)

  ghost function Init(plan: Plan): State
    requires plan.Valid()
  {
    var t := plan.Provisioned();
    State(Booting(t.instances.Keys), t, [], {}, {}, map[], [])
  }

  ghost predicate Enabled(s: State, step: Step) {
    match step
    case CoreReady(u) => s.phase.Booting? && u in s.phase.pending
    case CoreFails(u) => s.phase.Booting? && u in s.phase.pending
    case StartServing => s.phase == Booting({})
    case Arrive(id, header, path) => s.phase.Serving? && id !in s.inflight
    case Send(id) => id in s.inflight
    case CoreExits(u) => s.phase.Serving? && u in SetOf(s.children) - s.exited
    case ForgetInstance(u) => s.phase.Serving? && u in s.exited - s.forgotten
  }

  ghost function Apply(s: State, step: Step): State
    requires Enabled(s, step)
  {
    match step
    case CoreReady(u) => s.(phase := Booting(s.phase.pending - {u}), children := s.children + [u])
    case CoreFails(u) => s.(phase := Booting(s.phase.pending - {u}), tables := Removed(s.tables, u))
    case StartServing => s.(phase := if s.tables.instances == map[] then Stopped else Serving)
    case Arrive(id, header, path) =>
      var token := BearerFromHeader(header);
      (match Admit(s.tables, token, path)
       case Forward(port, bearer) => s.(inflight := s.inflight[id := Request(token.value, path, port, bearer)])
       case _ => s)
    case Send(id) => s.(inflight := s.inflight - {id}, sent := s.sent + [s.inflight[id]])
    case CoreExits(u) => s.(exited := s.exited + {u})
    case ForgetInstance(u) =>
      s.(forgotten := s.forgotten + {u}, tables := s.tables.(instances := s.tables.instances - {u}))
  }

  ghost predicate Next(s: State, s': State) {
    exists step :: Enabled(s, step) && s' == Apply(s, step)
  }

  ghost predicate IsRun(plan: Plan, run: seq<State>)
    requires plan.Valid()
  {
    && run != [] && run[0] == Init(plan)
    && forall i | 0 < i < |run| :: Next(run[i - 1], run[i])
  }

  /** The request goes to the one user its token stands for, and to nobody else's port or bearer. */
  ghost predicate Proper(t: Tables, r: Request) {
    && r.token in t.tokens && t.tokens[r.token] == r.pathUser
    && r.pathUser in t.instances
    && r.port == t.instances[r.pathUser].port && r.bearer == t.instances[r.pathUser].coreBearer
    && forall v | v in t.instances && v != r.pathUser ::
         t.instances[v].port != r.port && t.instances[v].coreBearer != r.bearer
  }

  /** The tables while serving: tokens and list for every child, instances for those not forgotten. */
  ghost function ServingTables(t: Tables, children: set<string>, forgotten: set<string>): Tables {
    Kept(t, children).(instances := Kept(t, children - forgotten).instances)
  }

  ghost predicate Inv(plan: Plan, s: State)
    requires plan.Valid()
  {
    var t, up := plan.Provisioned(), SetOf(s.children);
    && Distinct(s.children) && up <= t.instances.Keys && s.forgotten <= s.exited <= up
    && (s.phase.Booting? ==>
          && s.phase.pending <= t.instances.Keys && s.phase.pending !! up && s.exited == {}
          && s.tables == Kept(t, s.phase.pending + up))
    && (!s.phase.Booting? ==> s.tables == ServingTables(t, up, s.forgotten))
    && (forall id | id in s.inflight :: Proper(t, s.inflight[id]))
    && (forall r | r in s.sent :: Proper(t, r))
  }

  lemma AdmittedIsProper(plan: Plan, s: State, token: Option<EdgeToken>, path: string)
    requires plan.Valid() && Inv(plan, s) && s.phase.Serving?
    ensures var d := Admit(s.tables, token, path);
      d.Forward? ==> token.Some? && Proper(plan.Provisioned(), Request(token.value, path, d.port, d.bearer))
  {
    var t := plan.Provisioned();
    ProvisionedAligned(plan.users, plan.root, plan.basePort, plan.uuids);
    if Admit(s.tables, token, path).Forward? {
      forall v | v in t.instances && v != path
        ensures t.instances[v].port != t.instances[path].port
        ensures t.instances[v].coreBearer != t.instances[path].coreBearer
      {
        TenantsDoNotShare(plan.users, plan.root, plan.basePort, plan.uuids, path, v);
      }
    }
  }

  predicate IsBootStep(step: Step) {
    step.CoreReady? || step.CoreFails? || step.StartServing?
  }

  lemma BootKeepsInv(plan: Plan, s: State, step: Step)
    requires plan.Valid() && Inv(plan, s) && Enabled(s, step) && IsBootStep(step)
    ensures Inv(plan, Apply(s, step))
  {
    hide Proper, ProvisionedTables, Removed, Kept;
    var t, up := plan.Provisioned(), SetOf(s.children);
    match step
    case CoreReady(u) =>
      DistinctSnoc(s.children, u);
      assert s.phase.pending - {u} + (up + {u}) == s.phase.pending + up;
    case CoreFails(u) =>
      RemovedKept(t, s.phase.pending + up, u);
      assert s.phase.pending + up - {u} == s.phase.pending - {u} + up;
    case StartServing =>
      assert {} + up == up && s.forgotten == {};
      StartOfServing(t, up);
  }

  lemma StartOfServing(t: Tables, up: set<string>)
    ensures Kept(t, up) == ServingTables(t, up, {})
  {
    assert up - {} == up;
  }

  lemma ServeKeepsInv(plan: Plan, s: State, step: Step)
    requires plan.Valid() && Inv(plan, s) && Enabled(s, step) && !IsBootStep(step)
    ensures Inv(plan, Apply(s, step))
  {
    match step
    case Arrive(id, header, path) =>
      AdmittedIsProper(plan, s, BearerFromHeader(header), path);
    case Send(id) =>
    case CoreExits(u) =>
    case ForgetInstance(u) =>
      var up := SetOf(s.children);
      assert up - (s.forgotten + {u}) == up - s.forgotten - {u};
  }

  lemma InitHasInv(plan: Plan)
    requires plan.Valid()
    ensures Inv(plan, Init(plan))
  {
    ProvisionedAligned(plan.users, plan.root, plan.basePort, plan.uuids);
    hide ProvisionedTables, Kept, Aligned;
    var t := plan.Provisioned();
    KeptAll(t);
    assert SetOf(Init(plan).children) == {} && t.instances.Keys + {} == t.instances.Keys;
  }

  lemma {:induction false} RunsKeepInv(plan: Plan, run: seq<State>, i: nat)
    requires plan.Valid() && IsRun(plan, run) && i < |run|
    ensures Inv(plan, run[i])
  {
    hide Inv;
    if i == 0 {
      InitHasInv(plan);
    } else {
      RunsKeepInv(plan, run, i - 1);
      assert Next(run[i - 1], run[i]);
      var step :| Enabled(run[i - 1], step) && run[i] == Apply(run[i - 1], step);
      if IsBootStep(step) {
        BootKeepsInv(plan, run[i - 1], step);
      } else {
        ServeKeepsInv(plan, run[i - 1], step);
      }
    }
  }

  /**
   * In every reachable state, every request sent so far, however late after its
   * snapshot, went to the port and bearer provisioned for the user its token
   * stands for, which is the user of its path; no other tenant ever had either.
   */
  lemma SentRequestsAreProper(plan: Plan, run: seq<State>, i: nat, r: Request)
    requires plan.Valid() && IsRun(plan, run) && i < |run| && r in run[i].sent
    ensures Proper(plan.Provisioned(), r)
  {
    RunsKeepInv(plan, run, i);
  }

  /** When serving starts, the four lists of tenants agree, one entry each. */
  lemma ServingStartsAligned(plan: Plan, run: seq<State>, i: nat)
    requires plan.Valid() && IsRun(plan, run) && i < |run| && run[i].phase.Serving? && run[i].forgotten == {}
    ensures Aligned(run[i].tables)
    ensures Distinct(run[i].children) && SetOf(run[i].children) == run[i].tables.instances.Keys
  {
    RunsKeepInv(plan, run, i);
    ProvisionedAligned(plan.users, plan.root, plan.basePort, plan.uuids);
    KeptAligned(plan.Provisioned(), SetOf(run[i].children));
    assert SetOf(run[i].children) - {} == SetOf(run[i].children);
  }

  lemma {:induction false} ServingOnlyShrinks(plan: Plan, run: seq<State>, i: nat, j: nat)
    requires plan.Valid() && IsRun(plan, run) && i <= j < |run| && run[i].phase.Serving?
    ensures run[j].phase.Serving? && run[j].children == run[i].children && run[i].forgotten <= run[j].forgotten
    ensures run[j].tables.tokens == run[i].tables.tokens && run[j].tables.minted == run[i].tables.minted
    ensures run[j].tables.instances.Keys <= run[i].tables.instances.Keys
    ensures forall u | u in run[j].tables.instances :: run[j].tables.instances[u] == run[i].tables.instances[u]
  {
    if i == j {
    } else {
      ServingOnlyShrinks(plan, run, i, j - 1);
      assert Next(run[j - 1], run[j]);
    }
  }

  /** A tenant dropped at boot stays out for good, too. */
  lemma {:induction false} RemovedStaysOut(plan: Plan, run: seq<State>, i: nat, j: nat, u: string)
    requires plan.Valid() && IsRun(plan, run) && i <= j < |run| && u !in run[i].tables.instances
    ensures u !in run[j].tables.instances
  {
    if i == j {
    } else {
      RemovedStaysOut(plan, run, i, j - 1, u);
      assert Next(run[j - 1], run[j]);
    }
  }

  /**
   * Once a tenant is gone, no later request on its path is admitted. With its
   * own token the answer is not-found if it left while serving, and
   * unauthorized if it never came up, since booting takes its token away too.
   */
  lemma RemovedIsNeverAdmitted(plan: Plan, run: seq<State>, i: nat, j: nat, u: string, token: EdgeToken)
    requires plan.Valid() && IsRun(plan, run) && i <= j < |run| && u !in run[i].tables.instances
    requires run[j].phase.Serving? && u in plan.users
    requires token in plan.Provisioned().tokens && plan.Provisioned().tokens[token] == u
    ensures Admit(run[j].tables, Some(token), u) == if u in run[j].children then NotFound else Unauthorized
    ensures forall other: Option<EdgeToken> :: !Admit(run[j].tables, other, u).Forward?
  {
    RemovedStaysOut(plan, run, i, j, u);
    RunsKeepInv(plan, run, j);
  }

  /** A live tenant's client is served: its minted token reaches its own core. */
  lemma LiveTenantIsServed(plan: Plan, run: seq<State>, i: nat, u: string, token: EdgeToken)
    requires plan.Valid() && IsRun(plan, run) && i < |run| && run[i].phase.Serving?
    requires u in run[i].children && u !in run[i].forgotten && (u, token) in run[i].tables.minted
    requires token.text != "" && forall c | c in token.text :: IsHeaderChar(c) && !IsBlank(c)
    ensures var t := plan.Provisioned();
      u in t.instances && Admit(run[i].tables, BearerFromHeader(Some("Bearer " + token.text)), u) ==
        Forward(t.instances[u].port, t.instances[u].coreBearer)
  {
    var t := plan.Provisioned();
    RunsKeepInv(plan, run, i);
    ProvisionedAligned(plan.users, plan.root, plan.basePort, plan.uuids);
    KeptAligned(t, SetOf(run[i].children));
    BearerHeaderReads(token.text);
    assert token in Kept(t, SetOf(run[i].children)).tokens;
  }
}
