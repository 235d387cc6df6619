// The tenant tables of src/bin/fleet.rs: provisioning, removal, the boot loop
// and the edge-token file.
module FleetTenants {
  import opened Prelude

  datatype EdgeToken = EdgeToken(text: string)
  datatype CoreBearer = CoreBearer(text: string)

  type Port = p: int | 0 <= p < 0x1_0000

  /** A directory, outermost segment first. */
  type Path = seq<string>

  datatype CoreInstance = CoreInstance(
    userId: string, port: Port, coreBearer: CoreBearer, workspaceDir: Path, actionDir: Path)

  function PortForIndex(basePort: Port, index: nat): Option<Port> {
    if basePort + index < 0x1_0000 then Some(basePort + index) else None
  }

  function WorkspaceFor(root: Path, userId: string): Path {
    root + [userId]
  }

  function ActionDirFor(root: Path, userId: string): Path {
    root + [".tenant-action-dirs", userId]
  }

  predicate IsUserIdChar(c: char) {
    'a' <= c <= 'z' || 'A' <= c <= 'Z' || '0' <= c <= '9' || c == '-' || c == '_'
  }

  predicate IsValidUserId(userId: string) {
    userId != "" && |userId| <= 128 && forall c | c in userId :: IsUserIdChar(c)
  }

  /** An id is one to 128 ASCII letters and digits, dashes and underscores. */
  lemma ValidUserIdIff(userId: string)
    ensures IsValidUserId(userId) <==>
      1 <= |userId| <= 128
      && forall c | c in userId ::
           'a' <= LowerChar(c) <= 'z' || c as int - 0x30 in {0, 1, 2, 3, 4, 5, 6, 7, 8, 9} || c in "-_"
  {
    forall c ensures IsUserIdChar(c) <==>
      'a' <= LowerChar(c) <= 'z' || c as int - 0x30 in {0, 1, 2, 3, 4, 5, 6, 7, 8, 9} || c in "-_"
    {
    }
  }

  /** So it is one path segment, and no dot segment. */
  lemma ValidUserIdIsSegment(userId: string)
    requires IsValidUserId(userId)
    ensures '/' !in userId && userId !in {"", ".", ".."}
    ensures Split(userId, '/') == [userId]
  {
    ValidUserIdIff(userId);
    assert userId[0] in userId;
    SplitPiece(userId, "", '/');
  }

  /** A directory as text. */
  function Rendered(p: Path): string
    requires p != []
  {
    Join(p, '/')
  }

  /** The segments that a rendered directory is read as. */
  function Pieces(p: Path): seq<string> {
    if p == [] then [] else Split(Rendered(p), '/')
  }

  lemma PiecesBelow(p: Path, segment: string)
    requires '/' !in segment
    ensures Pieces(p + [segment]) == Pieces(p) + [segment]
  {
    SplitPiece(segment, "", '/');
    if p == [] {
      assert p + [segment] == [segment];
    } else {
      JoinAppend(p, [segment], '/');
      SplitAppend(Join(p, '/'), segment, '/');
    }
  }

  lemma PiecesTwoBelow(p: Path, a: string, b: string)
    requires '/' !in a && '/' !in b
    ensures Pieces(p + [a, b]) == Pieces(p) + [a, b]
  {
    hide Pieces;
    PiecesBelow(p, a);
    PiecesBelow(p + [a], b);
    assert p + [a, b] == p + [a] + [b] && Pieces(p) + [a, b] == Pieces(p) + [a] + [b];
  }

  /** On disk, too, each id adds exactly its own segment below the root. */
  lemma RenderedDirs(root: Path, userId: string)
    requires IsValidUserId(userId)
    ensures Pieces(WorkspaceFor(root, userId)) == Pieces(root) + [userId]
    ensures Pieces(ActionDirFor(root, userId)) == Pieces(root) + [".tenant-action-dirs", userId]
  {
    ValidUserIdIsSegment(userId);
    hide Pieces, IsValidUserId;
    PiecesBelow(root, userId);
    PiecesTwoBelow(root, ".tenant-action-dirs", userId);
  }

  // ------------------------------------------------------------------
  // The tables as values
  // ------------------------------------------------------------------

  type Minted = seq<(string, EdgeToken)>

  datatype Tables = Tables(instances: map<string, CoreInstance>, tokens: map<EdgeToken, string>, minted: Minted)

  function MintedFor(minted: Minted, keep: set<string>): Minted {
    if minted == [] then []
    else (if minted[0].0 in keep then [minted[0]] else []) + MintedFor(minted[1..], keep)
  }

  /** The tables with only the tenants in `keep` left in any of the three. */
  function Kept(t: Tables, keep: set<string>): Tables {
    Tables(map u | u in t.instances && u in keep :: t.instances[u],
           map k | k in t.tokens && t.tokens[k] in keep :: t.tokens[k],
           MintedFor(t.minted, keep))
  }

  function MintedUsers(t: Tables): set<string> {
    set i | 0 <= i < |t.minted| :: t.minted[i].0
  }

  function TokenUsers(t: Tables): set<string> {
    set k | k in t.tokens :: t.tokens[k]
  }

  /** The three tables hold the same tenants, once each. */
  ghost predicate Aligned(t: Tables) {
    && t.instances.Keys == TokenUsers(t) == MintedUsers(t)
    && (forall i, j | 0 <= i < j < |t.minted| :: t.minted[i].0 != t.minted[j].0)
    && (forall i | 0 <= i < |t.minted| :: t.minted[i].1 in t.tokens && t.tokens[t.minted[i].1] == t.minted[i].0)
    && (forall j, k | j in t.tokens && k in t.tokens && t.tokens[j] == t.tokens[k] :: j == k)
  }

  lemma {:induction false} MintedForMember(minted: Minted, keep: set<string>, e: (string, EdgeToken))
    ensures e in MintedFor(minted, keep) <==> e in minted && e.0 in keep
  {
    if minted == [] {
    } else {
      MintedForMember(minted[1..], keep, e);
    }
  }

  lemma {:induction false} MintedForDistinct(minted: Minted, keep: set<string>)
    requires forall i, j | 0 <= i < j < |minted| :: minted[i].0 != minted[j].0
    ensures var m := MintedFor(minted, keep); forall i, j | 0 <= i < j < |m| :: m[i].0 != m[j].0
  {
    if minted == [] {
    } else {
      var rest := MintedFor(minted[1..], keep);
      MintedForDistinct(minted[1..], keep);
      forall j | 0 <= j < |rest| ensures rest[j].0 != minted[0].0 {
        MintedForMember(minted[1..], keep, rest[j]);
        assert rest[j] in rest;
      }
    }
  }

  lemma KeptTokenUsers(t: Tables, keep: set<string>)
    ensures TokenUsers(Kept(t, keep)) == TokenUsers(t) * keep
  {
    var k := Kept(t, keep);
    forall u | u in TokenUsers(t) * keep ensures u in TokenUsers(k) {
      var e :| e in t.tokens && t.tokens[e] == u;
      assert e in k.tokens && k.tokens[e] == u;
    }
  }

  lemma KeptMinted(t: Tables, keep: set<string>)
    ensures forall e | e in Kept(t, keep).minted :: e in t.minted && e.0 in keep
    ensures MintedUsers(Kept(t, keep)) == MintedUsers(t) * keep
  {
    var k := Kept(t, keep);
    forall e | e in k.minted ensures e in t.minted && e.0 in keep {
      MintedForMember(t.minted, keep, e);
    }
    forall u | u in MintedUsers(t) * keep ensures u in MintedUsers(k) {
      var i :| 0 <= i < |t.minted| && t.minted[i].0 == u;
      MintedForMember(t.minted, keep, t.minted[i]);
    }
  }

  /** Keeping a set of tenants keeps the tables aligned, on exactly those tenants. */
  lemma KeptAligned(t: Tables, keep: set<string>)
    requires Aligned(t)
    ensures Aligned(Kept(t, keep)) && Kept(t, keep).instances.Keys == t.instances.Keys * keep
  {
    KeptTokenUsers(t, keep);
    KeptMinted(t, keep);
    MintedForDistinct(t.minted, keep);
    hide TokenUsers, MintedUsers;
    var k := Kept(t, keep);
    assert k.instances.Keys == t.instances.Keys * keep && k.minted == MintedFor(t.minted, keep);
    forall i | 0 <= i < |k.minted|
      ensures k.minted[i].1 in k.tokens && k.tokens[k.minted[i].1] == k.minted[i].0
    {
      assert k.minted[i] in k.minted;
    }
  }

  function MintedWithout(minted: Minted, userId: string): Minted {
    if minted == [] then []
    else (if minted[0].0 != userId then [minted[0]] else []) + MintedWithout(minted[1..], userId)
  }

  /** The tables after one tenant is dropped from all three. */
  function Removed(t: Tables, userId: string): Tables {
    Tables(t.instances - {userId},
           map k | k in t.tokens && t.tokens[k] != userId :: t.tokens[k],
           MintedWithout(t.minted, userId))
  }

  lemma {:induction false} MintedWithoutKept(minted: Minted, keep: set<string>, userId: string)
    ensures MintedWithout(MintedFor(minted, keep), userId) == MintedFor(minted, keep - {userId})
  {
    if minted == [] {
    } else {
      MintedWithoutKept(minted[1..], keep, userId);
      var rest := MintedFor(minted[1..], keep);
      assert ([minted[0]] + rest)[1..] == rest && [] + rest == rest;
    }
  }

  lemma RemovedKept(t: Tables, keep: set<string>, userId: string)
    ensures Removed(Kept(t, keep), userId) == Kept(t, keep - {userId})
  {
    MintedWithoutKept(t.minted, keep, userId);
  }

  lemma {:induction false} MintedForAll(minted: Minted, keep: set<string>)
    requires forall i | 0 <= i < |minted| :: minted[i].0 in keep
    ensures MintedFor(minted, keep) == minted
  {
    if minted == [] {
    } else {
      MintedForAll(minted[1..], keep);
    }
  }

  lemma KeptAll(t: Tables)
    requires Aligned(t)
    ensures Kept(t, t.instances.Keys) == t
  {
    var all := t.instances.Keys;
    forall i | 0 <= i < |t.minted| ensures t.minted[i].0 in all {
      assert t.minted[i].0 in MintedUsers(t);
    }
    MintedForAll(t.minted, all);
    KeptTokensAll(t, all);
    assert (map u | u in t.instances && u in all :: t.instances[u]) == t.instances;
  }

  lemma KeptTokensAll(t: Tables, all: set<string>)
    requires TokenUsers(t) <= all
    ensures Kept(t, all).tokens == t.tokens
  {
    forall k | k in t.tokens ensures t.tokens[k] in all {
      assert t.tokens[k] in TokenUsers(t);
    }
  }

  // ------------------------------------------------------------------
  // Provisioning
  // ------------------------------------------------------------------

  datatype ProvisionError =
    | InvalidUserId(userId: string)
    | DuplicateUserId(userId: string)
    | PortOverflow(index: nat)

  /** What stops provisioning at tenant `i`, the earlier ones having gone through. */
  function ErrorAt(users: seq<string>, basePort: Port, i: nat): Option<ProvisionError>
    requires i < |users|
  {
    if !IsValidUserId(users[i]) then Some(InvalidUserId(users[i]))
    else if users[i] in users[..i] then Some(DuplicateUserId(users[i]))
    else if PortForIndex(basePort, i).None? then Some(PortOverflow(i))
    else None
  }

  /** The faults of one tenant, by the first check that fails. */
  lemma ErrorAtIff(users: seq<string>, basePort: Port, i: nat)
    requires i < |users|
    ensures var e, seen := ErrorAt(users, basePort, i), exists j :: 0 <= j < i && users[j] == users[i];
      && (e == Some(InvalidUserId(users[i])) <==> !IsValidUserId(users[i]))
      && (e == Some(DuplicateUserId(users[i])) <==> IsValidUserId(users[i]) && seen)
      && (e == Some(PortOverflow(i)) <==> IsValidUserId(users[i]) && !seen && basePort + i > 65535)
      && (e == None <==> IsValidUserId(users[i]) && !seen && basePort + i <= 65535)
  {
    if users[i] in users[..i] {
      var j :| 0 <= j < i && users[..i][j] == users[i];
      assert users[j] == users[i];
    } else {
      forall j | 0 <= j < i ensures users[j] != users[i] {
        assert users[..i][j] in users[..i];
      }
    }
  }

  ghost predicate FirstError(users: seq<string>, basePort: Port, i: int, e: ProvisionError) {
    0 <= i < |users| && ErrorAt(users, basePort, i) == Some(e) && NoErrorBefore(users, basePort, i)
  }

  ghost predicate NoErrorBefore(users: seq<string>, basePort: Port, n: int) {
    forall i | 0 <= i < n && i < |users| :: ErrorAt(users, basePort, i).None?
  }

  ghost predicate Provisionable(users: seq<string>, basePort: Port) {
    && (forall u | u in users :: IsValidUserId(u))
    && (forall i, j | 0 <= i < j < |users| :: users[i] != users[j])
    && basePort + |users| <= 0x1_0000
  }

  lemma ErrorStops(users: seq<string>, basePort: Port, i: nat)
    requires i < |users|
    ensures ErrorAt(users, basePort, i).Some? ==> !Provisionable(users, basePort)
  {
    assert users[i] in users;
    if users[i] in users[..i] {
      var j :| 0 <= j < i && users[..i][j] == users[i];
      assert users[j] == users[i];
    }
  }

  lemma NoErrorPasses(users: seq<string>, basePort: Port)
    requires NoErrorBefore(users, basePort, |users|)
    ensures Provisionable(users, basePort)
  {
    forall i, j | 0 <= i < j < |users| ensures users[i] != users[j] {
      assert ErrorAt(users, basePort, j).None?;
      assert users[i] == users[..j][i];
    }
    forall u | u in users ensures IsValidUserId(u) {
      var i :| 0 <= i < |users| && users[i] == u;
      assert ErrorAt(users, basePort, i).None?;
    }
    assert users != [] ==> ErrorAt(users, basePort, |users| - 1).None?;
  }

  function InstanceFor(users: seq<string>, root: Path, basePort: Port, uuids: seq<string>, i: nat): CoreInstance
    requires i < |users| && basePort + i < 0x1_0000 && 2 * |users| <= |uuids|
  {
    CoreInstance(users[i], basePort + i, CoreBearer("core-" + uuids[2 * i]),
                 WorkspaceFor(root, users[i]), ActionDirFor(root, users[i]))
  }

  function TokenFor(uuids: seq<string>, i: nat): EdgeToken
    requires 2 * i + 1 < |uuids|
  {
    EdgeToken("edge-" + uuids[2 * i + 1])
  }

  /** The tables holding the first `n` users. */
  ghost function ProvisionedTables(users: seq<string>, root: Path, basePort: Port, uuids: seq<string>, n: nat): Tables
    requires n <= |users| && basePort + n <= 0x1_0000 && 2 * |users| <= |uuids|
  {
    if n == 0 then Tables(map[], map[], [])
    else
      var t := ProvisionedTables(users, root, basePort, uuids, n - 1);
      var u := users[n - 1];
      Tables(t.instances[u := InstanceFor(users, root, basePort, uuids, n - 1)],
             t.tokens[TokenFor(uuids, n - 1) := u],
             t.minted + [(u, TokenFor(uuids, n - 1))])
  }

  ghost predicate Distinct<T>(s: seq<T>) {
    forall i, j | 0 <= i < j < |s| :: s[i] != s[j]
  }

  ghost function SetOf<T>(s: seq<T>): set<T> {
    set x | x in s
  }

  lemma DistinctSnoc<T>(s: seq<T>, x: T)
    requires Distinct(s) && x !in SetOf(s)
    ensures Distinct(s + [x]) && SetOf(s + [x]) == SetOf(s) + {x}
  {
  }

  lemma TokensDistinct(uuids: seq<string>, i: nat, j: nat)
    requires Distinct(uuids) && i < j && 2 * j + 1 < |uuids|
    ensures TokenFor(uuids, i) != TokenFor(uuids, j)
  {
    var a, b := uuids[2 * i + 1], uuids[2 * j + 1];
    assert a == ("edge-" + a)[5..] && b == ("edge-" + b)[5..];
  }

  /** Row `i` of each table: the next port up, its own directories and bearer, a token leading back. */
  ghost predicate HasRow(users: seq<string>, root: Path, basePort: Port, uuids: seq<string>, t: Tables, i: nat)
    requires i < |users| && basePort + i < 0x1_0000 && 2 * |users| <= |uuids|
  {
    && i < |t.minted| && t.minted[i] == (users[i], TokenFor(uuids, i))
    && users[i] in t.instances && t.instances[users[i]] == InstanceFor(users, root, basePort, uuids, i)
    && TokenFor(uuids, i) in t.tokens && t.tokens[TokenFor(uuids, i)] == users[i]
  }

  /** No identifier is used twice: no token betrays a bearer, nor the token of another user. */
  lemma SecretsUseOwnIds(users: seq<string>, root: Path, basePort: Port, uuids: seq<string>, i: nat, j: nat)
    requires i < |users| && j < |users| && basePort + |users| <= 0x1_0000 && 2 * |users| <= |uuids| && Distinct(uuids)
    ensures var bearer, token := InstanceFor(users, root, basePort, uuids, i).coreBearer.text, TokenFor(uuids, j).text;
      && |bearer| >= 5 && |token| >= 5 && bearer[..5] == "core-" && token[..5] == "edge-"
      && bearer[5..] in uuids && token[5..] in uuids && bearer[5..] != token[5..]
      && (i != j ==> bearer[5..] != InstanceFor(users, root, basePort, uuids, j).coreBearer.text[5..]
                     && TokenFor(uuids, i).text[5..] != token[5..])
  {
    assert forall id :: ("core-" + id)[5..] == id && ("edge-" + id)[5..] == id;
  }

  /** With distinct identifiers, the tables hold a row for every user and nothing else. */
  lemma {:induction false} ProvisionedRows(users: seq<string>, root: Path, basePort: Port, uuids: seq<string>, n: nat)
    requires n <= |users| && basePort + n <= 0x1_0000 && 2 * |users| <= |uuids|
    requires Distinct(users) && Distinct(uuids)
    ensures var t := ProvisionedTables(users, root, basePort, uuids, n);
      && |t.minted| == n
      && (forall u | u in t.instances :: u in users[..n])
      && (forall k | k in t.tokens :: exists i :: 0 <= i < n && k == TokenFor(uuids, i))
      && (forall i | 0 <= i < n :: HasRow(users, root, basePort, uuids, t, i))
  {
    if n == 0 {
    } else {
      var t' := ProvisionedTables(users, root, basePort, uuids, n - 1);
      var t := ProvisionedTables(users, root, basePort, uuids, n);
      ProvisionedRows(users, root, basePort, uuids, n - 1);
      assert users[..n] == users[..n - 1] + [users[n - 1]];
      forall i | 0 <= i < n ensures HasRow(users, root, basePort, uuids, t, i) {
        if i < n - 1 {
          assert HasRow(users, root, basePort, uuids, t', i);
          TokensDistinct(uuids, i, n - 1);
        }
      }
    }
  }

  /** Three tables written row by row from two duplicate-free lists are aligned. */
  lemma AlignedFromRows(t: Tables, users: seq<string>, tokens: seq<EdgeToken>)
    requires |users| == |tokens| == |t.minted| && Distinct(users) && Distinct(tokens)
    requires t.instances.Keys == SetOf(users) && t.tokens.Keys == SetOf(tokens)
    requires forall i | 0 <= i < |users| :: t.minted[i] == (users[i], tokens[i]) && t.tokens[tokens[i]] == users[i]
    ensures Aligned(t)
  {
    forall u ensures u in SetOf(users) <==> u in TokenUsers(t) {
      if u in SetOf(users) {
        var i :| 0 <= i < |users| && u == users[i];
        assert tokens[i] in t.tokens && t.tokens[tokens[i]] == u;
      }
    }
    forall u ensures u in SetOf(users) <==> u in MintedUsers(t) {
      if u in SetOf(users) {
        var i :| 0 <= i < |users| && u == users[i];
        assert t.minted[i].0 == u;
      }
    }
  }

  function TokenList(uuids: seq<string>, n: nat): seq<EdgeToken>
    requires 2 * n <= |uuids|
  {
    seq(n, i requires 0 <= i < n => TokenFor(uuids, i))
  }

  lemma TokenListDistinct(uuids: seq<string>, n: nat)
    requires 2 * n <= |uuids| && Distinct(uuids)
    ensures Distinct(TokenList(uuids, n))
  {
    forall i, j | 0 <= i < j < n ensures TokenList(uuids, n)[i] != TokenList(uuids, n)[j] {
      TokensDistinct(uuids, i, j);
    }
  }

  lemma ProvisionedLists(users: seq<string>, root: Path, basePort: Port, uuids: seq<string>)
    requires Provisionable(users, basePort) && 2 * |users| <= |uuids| && Distinct(uuids)
    ensures var t := ProvisionedTables(users, root, basePort, uuids, |users|);
      var tokens := TokenList(uuids, |users|);
      && |t.minted| == |users|
      && (forall u :: u in t.instances <==> u in users)
      && (forall k :: k in t.tokens <==> k in tokens)
      && (forall i | 0 <= i < |users| :: t.minted[i] == (users[i], tokens[i]))
      && (forall i | 0 <= i < |users| :: tokens[i] in t.tokens && t.tokens[tokens[i]] == users[i])
  {
    var n := |users|;
    var t := ProvisionedTables(users, root, basePort, uuids, n);
    var tokens := TokenList(uuids, n);
    ProvisionedRows(users, root, basePort, uuids, n);
    assert users[..n] == users;
    forall i | 0 <= i < n ensures t.minted[i] == (users[i], tokens[i]) && users[i] in t.instances
                            && tokens[i] in t.tokens && t.tokens[tokens[i]] == users[i] {
      assert HasRow(users, root, basePort, uuids, t, i);
    }
    forall k | k in t.tokens ensures k in tokens {
      var i :| 0 <= i < n && k == TokenFor(uuids, i);
      assert tokens[i] == k;
    }
  }

  lemma ProvisionedAligned(users: seq<string>, root: Path, basePort: Port, uuids: seq<string>)
    requires Provisionable(users, basePort) && 2 * |users| <= |uuids| && Distinct(uuids)
    ensures Aligned(ProvisionedTables(users, root, basePort, uuids, |users|))
    ensures ProvisionedTables(users, root, basePort, uuids, |users|).instances.Keys == SetOf(users)
  {
    ProvisionedLists(users, root, basePort, uuids);
    TokenListDistinct(uuids, |users|);
    AlignedFromRows(ProvisionedTables(users, root, basePort, uuids, |users|), users, TokenList(uuids, |users|));
  }

  /** No two tenants share a port, a bearer or a directory. */
  lemma TenantsDoNotShare(users: seq<string>, root: Path, basePort: Port, uuids: seq<string>, u: string, v: string)
    requires Provisionable(users, basePort) && 2 * |users| <= |uuids| && Distinct(uuids)
    requires u in users && v in users && u != v
    ensures var t := ProvisionedTables(users, root, basePort, uuids, |users|).instances;
      && u in t && v in t && t[u].port != t[v].port && t[u].coreBearer != t[v].coreBearer
      && t[u].workspaceDir != t[v].workspaceDir && t[u].actionDir != t[v].actionDir
  {
    ProvisionedRows(users, root, basePort, uuids, |users|);
    var i :| 0 <= i < |users| && users[i] == u;
    var j :| 0 <= j < |users| && users[j] == v;
    assert HasRow(users, root, basePort, uuids, ProvisionedTables(users, root, basePort, uuids, |users|), i);
    assert HasRow(users, root, basePort, uuids, ProvisionedTables(users, root, basePort, uuids, |users|), j);
    InstancesDiffer(users, root, basePort, uuids, i, j);
  }

  lemma InstancesDiffer(users: seq<string>, root: Path, basePort: Port, uuids: seq<string>, i: nat, j: nat)
    requires Provisionable(users, basePort) && 2 * |users| <= |uuids| && Distinct(uuids)
    requires i < |users| && j < |users| && i != j
    ensures var a, b := InstanceFor(users, root, basePort, uuids, i), InstanceFor(users, root, basePort, uuids, j);
      && a.port != b.port && a.coreBearer != b.coreBearer
      && a.workspaceDir != b.workspaceDir && a.actionDir != b.actionDir
  {
    var a, b := uuids[2 * i], uuids[2 * j];
    assert a != b && users[i] != users[j];
    assert a == ("core-" + a)[5..] && b == ("core-" + b)[5..];
    assert WorkspaceFor(root, users[i])[|root|] == users[i] && WorkspaceFor(root, users[j])[|root|] == users[j];
    assert ActionDirFor(root, users[i])[|root| + 1] == users[i] && ActionDirFor(root, users[j])[|root| + 1] == users[j];
  }

  /**
   * Read as text, no tenant's action directory lies in or above any tenant's
   * workspace, and no directory of one tenant in the same one of another.
   */
  lemma ActionDirsOutsideWorkspaces(root: Path, u: string, v: string)
    requires IsValidUserId(u) && IsValidUserId(v)
    ensures !(Pieces(WorkspaceFor(root, u)) <= Pieces(ActionDirFor(root, v)))
    ensures !(Pieces(ActionDirFor(root, v)) <= Pieces(WorkspaceFor(root, u)))
    ensures u != v ==> !(Pieces(WorkspaceFor(root, u)) <= Pieces(WorkspaceFor(root, v)))
    ensures u != v ==> !(Pieces(ActionDirFor(root, u)) <= Pieces(ActionDirFor(root, v)))
  {
    hide Pieces, IsValidUserId;
    RenderedDirs(root, u);
    RenderedDirs(root, v);
    NotTenantDirs(u);
    var n := |Pieces(root)|;
    assert (Pieces(root) + [u])[n] == u && (Pieces(root) + [v])[n] == v;
    assert (Pieces(root) + [".tenant-action-dirs", v])[n] == ".tenant-action-dirs";
    assert (Pieces(root) + [".tenant-action-dirs", u])[n + 1] == u;
    assert (Pieces(root) + [".tenant-action-dirs", v])[n + 1] == v;
  }

  lemma NotTenantDirs(u: string)
    requires IsValidUserId(u)
    ensures u != ".tenant-action-dirs"
  {
    ValidUserIdIff(u);
    assert ".tenant-action-dirs"[0] == '.' && u[0] in u;
  }

  datatype Decision = Unauthorized | Forbidden | NotFound | Forward(port: Port, bearer: CoreBearer)

  /** What the proxy decides under its read lock. */
  function Admit(t: Tables, token: Option<EdgeToken>, pathUser: string): Decision {
    if token.None? || token.value !in t.tokens then Unauthorized
    else if t.tokens[token.value] != pathUser then Forbidden
    else if pathUser !in t.instances then NotFound
    else Forward(t.instances[pathUser].port, t.instances[pathUser].coreBearer)
  }

  /** Each answer, by what the tables hold for the token and the path. */
  lemma AdmitIff(t: Tables, token: Option<EdgeToken>, pathUser: string)
    ensures Admit(t, token, pathUser) == Unauthorized <==> forall k | k in t.tokens :: token != Some(k)
    ensures Admit(t, token, pathUser) == Forbidden <==>
      exists k :: k in t.tokens && token == Some(k) && t.tokens[k] != pathUser
    ensures Admit(t, token, pathUser) == NotFound <==>
      pathUser !in t.instances && exists k :: k in t.tokens && token == Some(k) && t.tokens[k] == pathUser
    ensures forall port, bearer :: Admit(t, token, pathUser) == Forward(port, bearer) <==>
      && pathUser in t.instances && t.instances[pathUser].port == port && t.instances[pathUser].coreBearer == bearer
      && exists k :: k in t.tokens && token == Some(k) && t.tokens[k] == pathUser
  {
    if token.Some? {
      var k := token.value;
      assert k in t.tokens ==> token == Some(k);
    }
  }

  // ------------------------------------------------------------------
  // The tables as the supervisor updates them
  // ------------------------------------------------------------------

  class EdgeAuth {
    var tokens: map<EdgeToken, string>

    constructor ()
      ensures tokens == map[]
    {
      tokens := map[];
    }

    method Insert(token: EdgeToken, userId: string)
      modifies this
      ensures tokens == old(tokens)[token := userId]
    {
      tokens := tokens[token := userId];
    }

    function UserFor(token: EdgeToken): Option<string>
      reads this
    {
      if token in tokens then Some(tokens[token]) else None
    }

    /** A token of `userId` stands for nobody now, and every other token for whom it did. */
    method RemoveUser(userId: string)
      modifies this
      ensures forall k :: UserFor(k) == if old(UserFor(k)) == Some(userId) then None else old(UserFor(k))
    {
      tokens := map k | k in tokens && tokens[k] != userId :: tokens[k];
    }
  }

  class Supervisor {
    var instances: map<string, CoreInstance>
    const edgeAuth: EdgeAuth
    var minted: Minted
    var children: seq<string>

    constructor ()
      ensures fresh(edgeAuth) && View() == Tables(map[], map[], []) && children == []
    {
      instances, minted, children := map[], [], [];
      edgeAuth := new EdgeAuth();
    }

    function View(): Tables
      reads this, edgeAuth
    {
      Tables(instances, edgeAuth.tokens, minted)
    }

    /** Builds the tables for `users`, drawing two identifiers per user from `uuids`. */
    static method Provision(users: seq<string>, root: Path, basePort: Port, uuids: seq<string>)
      returns (r: Result<Supervisor, ProvisionError>)
      requires 2 * |users| <= |uuids|
      ensures r.Ok? <==> Provisionable(users, basePort)
      ensures r.Ok? ==> fresh(r.value) && fresh(r.value.edgeAuth) && r.value.children == []
      ensures r.Ok? ==> r.value.View() == ProvisionedTables(users, root, basePort, uuids, |users|)
      ensures r.Err? ==> exists i :: FirstError(users, basePort, i, r.error)
    {
      var s := new Supervisor();
      for i := 0 to |users|
        invariant fresh(s) && fresh(s.edgeAuth) && s.children == []
        invariant basePort + i <= 0x1_0000
        invariant NoErrorBefore(users, basePort, i)
        invariant s.View() == ProvisionedTables(users, root, basePort, uuids, i)
        invariant forall u :: u in s.instances <==> u in users[..i]
      {
        var user := users[i];
        ErrorStops(users, basePort, i);
        assert users[..i + 1] == users[..i] + [user];
        if !IsValidUserId(user) {
          assert FirstError(users, basePort, i, InvalidUserId(user));
          return Err(InvalidUserId(user));
        }
        if user in s.instances {
          assert FirstError(users, basePort, i, DuplicateUserId(user));
          return Err(DuplicateUserId(user));
        }
        var port := PortForIndex(basePort, i);
        if port.None? {
          assert FirstError(users, basePort, i, PortOverflow(i));
          return Err(PortOverflow(i));
        }
        var token := EdgeToken("edge-" + uuids[2 * i + 1]);
        s.edgeAuth.Insert(token, user);
        s.minted := s.minted + [(user, token)];
        s.instances := s.instances[user :=
          CoreInstance(user, port.value, CoreBearer("core-" + uuids[2 * i]),
                       WorkspaceFor(root, user), ActionDirFor(root, user))];
      }
      NoErrorPasses(users, basePort);
      r := Ok(s);
    }

    method RemoveTenant(userId: string)
      modifies this, edgeAuth
      ensures View() == Removed(old(View()), userId) && children == old(children)
    {
      instances := instances - {userId};
      edgeAuth.RemoveUser(userId);
      ghost var kept := Removed(old(View()), userId).tokens;
      assert edgeAuth.tokens == kept by {
        forall k ensures edgeAuth.UserFor(k) == if k in kept then Some(kept[k]) else None {
        }
        assert forall k :: k in edgeAuth.tokens ==> edgeAuth.UserFor(k) == Some(edgeAuth.tokens[k]);
      }
      minted := MintedWithout(minted, userId);
    }

    /**
     * The boot loop: tenants in some table order, each either coming up or being
     * killed and removed. `ready` is the set of tenants whose core spawns and
     * answers the authenticated probe. Reports whether any core started.
     */
    method Boot(ready: set<string>) returns (started: bool)
      requires Aligned(View()) && children == []
      modifies this, edgeAuth
      ensures View() == Kept(old(View()), old(instances).Keys * ready) && Aligned(View())
      ensures Distinct(children) && SetOf(children) == instances.Keys == old(instances).Keys * ready
      ensures started <==> instances.Keys != {}
    {
      hide Kept, Aligned;
      ghost var before := View();
      ghost var up := before.instances.Keys * ready;
      var todo := instances.Keys;
      KeptAll(before);
      assert todo + up == before.instances.Keys;
      while todo != {}
        invariant todo <= before.instances.Keys
        invariant View() == Kept(before, todo + up)
        invariant Distinct(children) && SetOf(children) == up - todo
      {
        var user :| user in todo;
        BootOne(user, user in ready, before, todo + up);
        assert (if user in ready then todo + up else todo + up - {user}) == todo - {user} + up;
        todo := todo - {user};
      }
      assert {} + up == up && up - {} == up;
      KeptAligned(before, up);
      started := instances != map[];
    }

    /** One turn of the boot loop: the child is kept, or the tenant goes. */
    method BootOne(userId: string, ready: bool, ghost before: Tables, ghost keep: set<string>)
      requires View() == Kept(before, keep) && Distinct(children) && userId !in SetOf(children)
      modifies this, edgeAuth
      ensures View() == Kept(before, if ready then keep else keep - {userId})
      ensures Distinct(children) && SetOf(children) == SetOf(old(children)) + if ready then {userId} else {}
    {
      if ready {
        DistinctSnoc(children, userId);
        children := children + [userId];
      } else {
        RemoveTenant(userId);
        RemovedKept(before, keep, userId);
      }
    }

    /** The proxy's checks, in their order. */
    method CheckRequest(token: Option<EdgeToken>, pathUser: string) returns (d: Decision)
      ensures d == Admit(View(), token, pathUser)
      ensures d.Forward? <==> token.Some? && edgeAuth.UserFor(token.value) == Some(pathUser) && pathUser in instances
      ensures d.Forward? ==> d == Forward(instances[pathUser].port, instances[pathUser].coreBearer)
    {
      var authorized := if token.None? then None else edgeAuth.UserFor(token.value);
      match authorized
      case None => return Unauthorized;
      case Some(u) =>
        if u != pathUser {
          return Forbidden;
        }
        if pathUser !in instances {
          return NotFound;
        }
        return Forward(instances[pathUser].port, instances[pathUser].coreBearer);
    }

    /** A child-exit task: the instance goes, the token stays. */
    method ChildExited(userId: string)
      modifies this
      ensures View() == old(View()).(instances := old(instances) - {userId}) && children == old(children)
      ensures forall k | edgeAuth.UserFor(k) == Some(userId) :: Admit(View(), Some(k), userId) == NotFound
      ensures forall token, path | path != userId :: Admit(View(), token, path) == Admit(old(View()), token, path)
    {
      instances := instances - {userId};
    }
  }

  // ------------------------------------------------------------------
  // The edge-token file
  // ------------------------------------------------------------------

  function TokenLine(e: (string, EdgeToken)): string {
    e.0 + " " + e.1.text
  }

  function TokenText(minted: Minted): string {
    if minted == [] then "" else TokenLine(minted[0]) + "\n" + TokenText(minted[1..])
  }

  method WriteEdgeTokens(minted: Minted) returns (output: string)
    ensures output == TokenText(minted)
  {
    output := "";
    for i := 0 to |minted|
      invariant output + TokenText(minted[i..]) == TokenText(minted)
    {
      var tail := TokenText(minted[i + 1..]);
      assert TokenText(minted[i..]) == TokenLine(minted[i]) + "\n" + tail;
      output := output + minted[i].0;
      output := output + " ";
      output := output + minted[i].1.text;
      output := output + "\n";
    }
  }

  /** The text before the first space and the text after it. */
  function CutAtSpace(line: string): (string, string) {
    if line == "" then ("", "")
    else if line[0] == ' ' then ("", line[1..])
    else
      var r := CutAtSpace(line[1..]);
      ([line[0]] + r.0, r.1)
  }

  /** How a reader of the file takes it apart: lines, each cut at its first space. */
  function ReadTokens(text: string): Minted {
    var lines := Split(text, '\n');
    seq(|lines| - 1, i requires 0 <= i < |lines| - 1 =>
      (CutAtSpace(lines[i]).0, EdgeToken(CutAtSpace(lines[i]).1)))
  }

  lemma {:induction false} CutAtSpaceOf(user: string, token: string)
    requires ' ' !in user
    ensures CutAtSpace(user + " " + token) == (user, token)
  {
    var line := user + " " + token;
    if user == "" {
      assert line[1..] == token;
    } else {
      assert line[1..] == user[1..] + " " + token;
      CutAtSpaceOf(user[1..], token);
      assert user[0] in user && user == [user[0]] + user[1..];
    }
  }

  lemma ReadTokensLine(line: string, text: string)
    requires '\n' !in line
    ensures ReadTokens(line + "\n" + text) ==
      [(CutAtSpace(line).0, EdgeToken(CutAtSpace(line).1))] + ReadTokens(text)
  {
    SplitPiece(line, text, '\n');
    assert line + "\n" + text == line + ['\n'] + text;
  }

  /** The file text determines the minted list: reading it back returns the list. */
  lemma {:induction false} TokenFileRoundTrip(minted: Minted)
    requires forall e | e in minted :: IsValidUserId(e.0) && '\n' !in e.1.text
    ensures ReadTokens(TokenText(minted)) == minted
  {
    if minted == [] {
    } else {
      var e, rest := minted[0], minted[1..];
      assert e in minted && forall x | x in rest :: x in minted;
      TokenFileRoundTrip(rest);
      LineIsClean(e);
      ReadTokensLine(TokenLine(e), TokenText(rest));
      CutAtSpaceOf(e.0, e.1.text);
      assert minted == [e] + rest;
    }
  }

  lemma LineIsClean(e: (string, EdgeToken))
    requires IsValidUserId(e.0) && '\n' !in e.1.text
    ensures ' ' !in e.0 && '\n' !in TokenLine(e)
  {
    assert !IsUserIdChar(' ') && !IsUserIdChar('\n');
  }
}
