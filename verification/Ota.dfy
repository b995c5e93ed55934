/** The over-the-air installer, run_ota_update (src/apps/appstore/app_settings.c:188-258): compare, download to
    /cache, verify, remove the old binary, rename. */
module Ota {
  import opened Words

  type Files = map<string, seq<byte>>

  datatype App = App(name: string, build: int)

  /** One write of the download: the bytes that came, how many reached the card, and what fs.write returned. */
  datatype Piece = Piece(data: seq<byte>, written: nat, ok: bool)

  /** How the card and the network behave for one app: whether open succeeds and whether it truncates, what is
      streamed, whether the stream ends well, and whether the two removes and the rename take effect. */
  datatype World = World(opens: bool, truncates: bool, pieces: seq<Piece>, arrives: bool,
                         clears: bool, removes: bool, renames: bool)

  // ---------- paths ----------

  function TmpPath(name: string): string {
    "/cache/" + name + ".espapp.tmp"
  }

  function FinalPath(name: string): string {
    "/apps/" + name + ".espapp"
  }

  /** No two apps share a path, and no download path is a binary's path. */
  lemma PathsApart(a: string, b: string)
    ensures TmpPath(a) != FinalPath(b)
    ensures FinalPath(a) == FinalPath(b) ==> a == b
    ensures TmpPath(a) == TmpPath(b) ==> a == b
  {
    assert TmpPath(a)[1] == 'c' && FinalPath(b)[1] == 'a';
    assert FinalPath(a)[6..|FinalPath(a)| - 7] == a && FinalPath(b)[6..|FinalPath(b)| - 7] == b;
    assert TmpPath(a)[7..|TmpPath(a)| - 11] == a && TmpPath(b)[7..|TmpPath(b)| - 11] == b;
  }

  // ---------- versions ----------

  /** The build of the first local entry with that name, -1 if there is none. */
  function LocalBuild(local: seq<App>, name: string): int {
    if local == [] then -1 else if local[0].name == name then local[0].build else LocalBuild(local[1..], name)
  }

  predicate Newer(local: seq<App>, app: App) {
    app.build > LocalBuild(local, app.name)
  }

  lemma {:induction false} LocalBuildFirst(local: seq<App>, name: string, j: nat)
    requires j <= |local| && forall i :: 0 <= i < j ==> local[i].name != name
    ensures LocalBuild(local, name) == LocalBuild(local[j..], name)
    decreases j
  {
    if j == 0 {
      assert local[0..] == local;
    } else {
      LocalBuildFirst(local, name, j - 1);
      assert local[j - 1..][1..] == local[j..];
    }
  }

  /** An app is newer exactly if its build exceeds that of the first local entry of its name, or -1 if there is none. */
  lemma NewerIff(local: seq<App>, app: App)
    ensures (forall i :: 0 <= i < |local| ==> local[i].name != app.name) ==> (Newer(local, app) <==> app.build > -1)
    ensures forall j: nat :: j < |local| && local[j].name == app.name && (forall i :: 0 <= i < j ==> local[i].name != app.name)
              ==> (Newer(local, app) <==> app.build > local[j].build)
  {
    if forall i :: 0 <= i < |local| ==> local[i].name != app.name { LocalBuildFirst(local, app.name, |local|); }
    forall j: nat | j < |local| && local[j].name == app.name && (forall i :: 0 <= i < j ==> local[i].name != app.name)
      ensures Newer(local, app) <==> app.build > local[j].build
    {
      LocalBuildFirst(local, app.name, j);
    }
  }

  /** The comparison loops. */
  method Compare(local: seq<App>, remote: seq<App>) returns (needs: seq<bool>, updates: nat)
    ensures |needs| == |remote| && forall i :: 0 <= i < |remote| ==> (needs[i] <==> Newer(local, remote[i]))
    ensures updates == 0 <==> forall i :: 0 <= i < |remote| ==> !needs[i]
  {
    needs, updates := [], 0;
    for i := 0 to |remote|
      invariant |needs| == i && forall j :: 0 <= j < i ==> (needs[j] <==> Newer(local, remote[j]))
      invariant updates == 0 <==> forall j :: 0 <= j < i ==> !needs[j]
    {
      var localBuild := -1;
      for j := 0 to |local|
        invariant localBuild == -1 && forall m :: 0 <= m < j ==> local[m].name != remote[i].name
      {
        LocalBuildFirst(local, remote[i].name, j);
        if local[j].name == remote[i].name {
          localBuild := local[j].build;
          break;
        }
      }
      assert localBuild == LocalBuild(local, remote[i].name) by {
        if forall m :: 0 <= m < |local| ==> local[m].name != remote[i].name {
          LocalBuildFirst(local, remote[i].name, |local|);
        }
      }
      var newer := remote[i].build > localBuild;
      needs := needs + [newer];
      if newer { updates := updates + 1; }
    }
  }

  // ---------- what has to hold at every step ----------

  /** p names the same content, or nothing, in both. */
  ghost predicate SameAt(s: Files, t: Files, p: string) {
    (p in s <==> p in t) && (p in s ==> s[p] == t[p])
  }

  /** Nothing differs but at one path. */
  ghost predicate OnlyAt(s: Files, t: Files, path: string) {
    forall p :: p != path ==> SameAt(s, t, p)
  }

  lemma OnlyAtTwice(s: Files, t: Files, u: Files, path: string)
    requires OnlyAt(s, t, path) && OnlyAt(t, u, path)
    ensures OnlyAt(s, u, path)
  {
    forall p | p != path ensures SameAt(s, u, p) {
      assert SameAt(s, t, p) && SameAt(t, u, p);
    }
  }

  lemma OnlyAtSelf(s: Files, path: string)
    ensures OnlyAt(s, s, path)
  {
  }

  /** Installing `name` may touch two paths; the binary keeps its content, is absent, or is verified. */
  ghost predicate OneSafe(s: Files, t: Files, name: string, verify: seq<byte> -> bool) {
    && (forall p :: p != TmpPath(name) && p != FinalPath(name) ==> SameAt(s, t, p))
    && (SameAt(s, t, FinalPath(name)) || FinalPath(name) !in t || verify(t[FinalPath(name)]))
  }

  /** Every binary has its old content, or belongs to an update and is absent or verified; nothing else but the
      updates' download files changes. */
  ghost predicate Safe(s: Files, t: Files, names: set<string>, verify: seq<byte> -> bool) {
    && (forall name :: SameAt(s, t, FinalPath(name))
          || (name in names && (FinalPath(name) !in t || verify(t[FinalPath(name)]))))
    && (forall p :: (forall name :: name in names ==> p != TmpPath(name) && p != FinalPath(name)) ==> SameAt(s, t, p))
  }

  lemma SafeThenOne(s: Files, t: Files, u: Files, names: set<string>, name: string, verify: seq<byte> -> bool)
    requires Safe(s, t, names, verify) && OneSafe(t, u, name, verify) && name in names
    ensures Safe(s, u, names, verify)
  {
    forall n
      ensures SameAt(s, u, FinalPath(n)) || (n in names && (FinalPath(n) !in u || verify(u[FinalPath(n)])))
    {
      PathsApart(name, n);
      assert SameAt(t, u, FinalPath(n)) || n == name;
      assert SameAt(s, t, FinalPath(n)) || (n in names && (FinalPath(n) !in t || verify(t[FinalPath(n)])));
    }
    forall p | forall n :: n in names ==> p != TmpPath(n) && p != FinalPath(n)
      ensures SameAt(s, u, p)
    {
      assert SameAt(s, t, p);
      assert p != TmpPath(name) && p != FinalPath(name);
      assert SameAt(t, u, p);
    }
  }

  /** A change at the download path alone is safe, and leaves the binary where it was. */
  lemma TmpOnly(s: Files, t: Files, name: string, verify: seq<byte> -> bool)
    requires OnlyAt(s, t, TmpPath(name))
    ensures OneSafe(s, t, name, verify) && Recoverable(s, t, name, verify) && SameAt(s, t, FinalPath(name))
    ensures FinalPath(name) in s ==> FinalPath(name) in t
  {
    PathsApart(name, name);
    assert SameAt(s, t, FinalPath(name));
  }

  /** Removing a binary whose verified successor lies ready, and moving that successor in its place. */
  lemma Replace(s: Files, t: Files, name: string, removes: bool, renames: bool, verify: seq<byte> -> bool)
    requires OnlyAt(s, t, TmpPath(name)) && TmpPath(name) in t && verify(t[TmpPath(name)])
    ensures var tmp, final := TmpPath(name), FinalPath(name);
      var u := if removes then t - {final} else t;
      && OneSafe(s, u, name, verify) && Recoverable(s, u, name, verify) && tmp in u
      && var v := if renames then (u - {tmp})[final := u[tmp]] else u;
      && OneSafe(s, v, name, verify) && Recoverable(s, v, name, verify)
      && (if renames then final in v && v[final] == t[tmp] && tmp !in v
          else (if removes then final !in v else SameAt(s, v, final)) && tmp in v && v[tmp] == t[tmp])
  {
    PathsApart(name, name);
    TmpOnly(s, t, name, verify);
    var tmp, final := TmpPath(name), FinalPath(name);
    var u := if removes then t - {final} else t;
    var v := if renames then (u - {tmp})[final := u[tmp]] else u;
    forall p | p != tmp && p != final ensures SameAt(s, u, p) && SameAt(s, v, p) {
      assert SameAt(s, t, p);
    }
  }

  /** A binary that has gone is still there, verified, as a finished download. */
  ghost predicate Recoverable(s: Files, t: Files, name: string, verify: seq<byte> -> bool) {
    FinalPath(name) in s && FinalPath(name) !in t ==> TmpPath(name) in t && verify(t[TmpPath(name)])
  }

  /** The server lists the name at most once. */
  ghost predicate Once(remote: seq<App>, name: string) {
    forall i, j :: 0 <= i < |remote| && 0 <= j < |remote| && remote[i].name == name && remote[j].name == name ==> i == j
  }

  ghost function Updates(local: seq<App>, remote: seq<App>): set<string> {
    set i | 0 <= i < |remote| && Newer(local, remote[i]) :: remote[i].name
  }

  /** Some newer entry for the name before entry n removes the binary and fails to put another in its place. */
  ghost predicate Holed(local: seq<App>, remote: seq<App>, worlds: seq<World>, n: nat, name: string)
    requires n <= |remote| == |worlds|
  {
    exists j :: 0 <= j < n && remote[j].name == name && Newer(local, remote[j]) && worlds[j].removes && !worlds[j].renames
  }

  /** No newer entry for the name comes after one that leaves it without a binary. */
  ghost predicate NoHole(local: seq<App>, remote: seq<App>, worlds: seq<World>, name: string)
    requires |remote| == |worlds|
  {
    forall i :: 0 <= i < |remote| && remote[i].name == name && Newer(local, remote[i]) ==>
                  !Holed(local, remote, worlds, i, name)
  }

  /** What the card satisfies at every instant of an update that began with s. */
  ghost predicate Good(s: Files, t: Files, local: seq<App>, remote: seq<App>, worlds: seq<World>,
                       verify: seq<byte> -> bool)
    requires |remote| == |worlds|
  {
    && Safe(s, t, Updates(local, remote), verify)
    && forall name :: NoHole(local, remote, worlds, name) ==> Recoverable(s, t, name, verify)
  }

  /** Every binary that has gone was removed by an entry before n that put none in its place. */
  ghost predicate Explained(s: Files, t: Files, local: seq<App>, remote: seq<App>, worlds: seq<World>, n: nat)
    requires n <= |remote| == |worlds|
  {
    forall name :: FinalPath(name) in s && FinalPath(name) !in t ==> Holed(local, remote, worlds, n, name)
  }

  ghost predicate Untouched(s: Files, t: Files, name: string) {
    SameAt(s, t, FinalPath(name)) && SameAt(s, t, TmpPath(name))
  }

  lemma OthersUntouched(t: Files, u: Files, name: string, other: string, verify: seq<byte> -> bool)
    requires OneSafe(t, u, name, verify) && other != name
    ensures Untouched(t, u, other)
  {
    PathsApart(name, other);
    PathsApart(other, name);
    assert SameAt(t, u, FinalPath(other));
  }

  lemma GoodThenOne(s: Files, t: Files, u: Files, local: seq<App>, remote: seq<App>, worlds: seq<World>, i: nat,
                    verify: seq<byte> -> bool)
    requires i < |remote| == |worlds| && Newer(local, remote[i]) && Good(s, t, local, remote, worlds, verify)
    requires Explained(s, t, local, remote, worlds, i)
    requires OneSafe(t, u, remote[i].name, verify) && Recoverable(t, u, remote[i].name, verify)
    ensures Good(s, u, local, remote, worlds, verify)
  {
    SafeThenOne(s, t, u, Updates(local, remote), remote[i].name, verify);
    forall name | NoHole(local, remote, worlds, name) ensures Recoverable(s, u, name, verify) {
      assert Recoverable(s, t, name, verify);
      if name != remote[i].name {
        OthersUntouched(t, u, remote[i].name, name, verify);
      } else {
        assert !Holed(local, remote, worlds, i, name);
      }
    }
  }

  lemma ExplainedNext(s: Files, t: Files, u: Files, local: seq<App>, remote: seq<App>, worlds: seq<World>, i: nat,
                      verify: seq<byte> -> bool)
    requires i < |remote| == |worlds| && Explained(s, t, local, remote, worlds, i)
    requires Turned(t, u, Newer(local, remote[i]), remote[i].name, worlds[i], verify)
    ensures Explained(s, u, local, remote, worlds, i + 1)
  {
    forall name | FinalPath(name) in s && FinalPath(name) !in u ensures Holed(local, remote, worlds, i + 1, name) {
      if name != remote[i].name && Newer(local, remote[i]) { OthersUntouched(t, u, remote[i].name, name, verify); }
      if FinalPath(name) !in t {
        var j :| 0 <= j < i && remote[j].name == name && Newer(local, remote[j])
                 && worlds[j].removes && !worlds[j].renames;
        assert j < i + 1;
      } else {
        assert remote[i].name == name;
      }
    }
  }

  // ---------- the card ----------

  predicate Complete(p: Piece) {
    p.ok && p.written == |p.data|
  }

  function Concat(pieces: seq<Piece>): seq<byte> {
    if pieces == [] then [] else pieces[0].data + Concat(pieces[1..])
  }

  /** What reaches the card of one piece. */
  function Part(p: Piece): seq<byte> {
    p.data[..if p.written <= |p.data| then p.written else |p.data|]
  }

  /** What reaches the card of a stream: every piece up to the first that is not written whole, and of that one what was
      written. */
  function Written(pieces: seq<Piece>): seq<byte> {
    if pieces == [] then []
    else if Complete(pieces[0]) then pieces[0].data + Written(pieces[1..])
    else Part(pieces[0])
  }

  lemma {:induction false} WrittenWhole(pieces: seq<Piece>)
    requires forall i :: 0 <= i < |pieces| ==> Complete(pieces[i])
    ensures Written(pieces) == Concat(pieces)
    decreases |pieces|
  {
    if pieces != [] { WrittenWhole(pieces[1..]); }
  }

  lemma {:induction false} WrittenMore(pieces: seq<Piece>, p: Piece)
    requires forall i :: 0 <= i < |pieces| ==> Complete(pieces[i])
    ensures Written(pieces + [p]) == Written(pieces) + Part(p)
    decreases |pieces|
  {
    var more := pieces + [p];
    if pieces == [] {
      assert Written([p][1..]) == [];
    } else {
      assert more[1..] == pieces[1..] + [p];
      WrittenMore(pieces[1..], p);
    }
  }

  lemma {:induction false} WrittenStops(pieces: seq<Piece>, rest: seq<Piece>, j: nat)
    requires j < |pieces| && !Complete(pieces[j])
    ensures Written(pieces + rest) == Written(pieces)
    decreases |pieces|
  {
    assert (pieces + rest)[1..] == pieces[1..] + rest;
    if Complete(pieces[0]) { WrittenStops(pieces[1..], rest, j - 1); }
  }

  /** The first bytes of a file replaced by `front`. */
  function Over(front: seq<byte>, was: seq<byte>): seq<byte> {
    front + if |front| <= |was| then was[|front|..] else []
  }

  /** What the download file held when it was opened. */
  function Opened(files: Files, name: string, w: World): seq<byte> {
    if w.truncates || TmpPath(name) !in files then [] else files[TmpPath(name)]
  }

  /** What a whole download leaves in the file. */
  function Downloaded(files: Files, name: string, w: World): seq<byte> {
    Over(Concat(w.pieces), Opened(files, name, w))
  }

  /** The download went through and its file was accepted. */
  predicate Accepted(files: Files, name: string, w: World, verify: seq<byte> -> bool) {
    w.opens && w.arrives && (forall i :: 0 <= i < |w.pieces| ==> Complete(w.pieces[i]))
    && verify(Downloaded(files, name, w))
  }

  /** How an app the server lists once ends up: the new binary in place if it was newer, accepted and renamed,
      the old one if it was not newer or not accepted. */
  ghost predicate Outcome(s: Files, t: Files, app: App, newer: bool, w: World, verify: seq<byte> -> bool) {
    var final := FinalPath(app.name);
    if newer && Accepted(s, app.name, w, verify) then
      w.renames ==> final in t && t[final] == Downloaded(s, app.name, w)
    else SameAt(s, t, final)
  }

  /** Some newer entry before entry n is about the name, opens its download, and finds the binary gone. */
  ghost predicate Reopened(local: seq<App>, remote: seq<App>, worlds: seq<World>, turns: seq<Files>, n: nat, name: string)
    requires n <= |remote| == |worlds| && n <= |turns|
  {
    exists j :: 0 <= j < n && Reopens(local, remote[j], worlds[j], turns[j], name)
  }

  predicate Reopens(local: seq<App>, app: App, w: World, t: Files, name: string) {
    app.name == name && Newer(local, app) && w.opens && FinalPath(name) !in t
  }

  /** Some instant of a list at which the name is neither installed nor recoverable. */
  ghost predicate LostIn(s: Files, instants: seq<Files>, name: string, verify: seq<byte> -> bool) {
    exists k :: 0 <= k < |instants| && !Recoverable(s, instants[k], name, verify)
  }

  /** Worlds whose open truncates, and a verifier that refuses the empty file. */
  predicate StartsEmpty(worlds: seq<World>, verify: seq<byte> -> bool) {
    !verify([]) && forall i :: 0 <= i < |worlds| ==> worlds[i].truncates
  }

  /** At a turn that opens the download of a vanished binary, what was recoverable is lost. */
  lemma OpeningLoses(s: Files, t: Files, u: Files, name: string, w: World, verify: seq<byte> -> bool)
    requires FinalPath(name) in s && FinalPath(name) !in t && w.truncates && !verify([])
    requires u == t[TmpPath(name) := Opened(t, name, w)]
    ensures !Recoverable(s, u, name, verify)
  {
    PathsApart(name, name);
  }

  /** What was recoverable before a turn is lost in it only if the turn opens the download of a vanished binary. */
  lemma LosesByOpening(s: Files, t: Files, u: Files, app: string, name: string, verify: seq<byte> -> bool)
    requires Recoverable(s, t, name, verify) && !Recoverable(s, u, name, verify)
    requires OneSafe(t, u, app, verify) && Recoverable(t, u, app, verify)
    ensures app == name && FinalPath(name) !in t
  {
    if app != name { OthersUntouched(t, u, app, name, verify); }
  }

  /** After n turns, with the card at `now` and `seen` the instants so far: a name has been lost only if an entry opened
      its download with its binary gone, and in worlds that start downloads empty every such entry has lost it. */
  ghost predicate LossesKnown(s: Files, now: Files, seen: seq<Files>, local: seq<App>, remote: seq<App>,
                              worlds: seq<World>, turns: seq<Files>, n: nat, verify: seq<byte> -> bool)
    requires n <= |remote| == |worlds| && n <= |turns|
  {
    && (forall name :: LostIn(s, seen, name, verify) || !Recoverable(s, now, name, verify) ==>
                         Reopened(local, remote, worlds, turns, n, name))
    && (StartsEmpty(worlds, verify) ==>
          forall name :: FinalPath(name) in s && Reopened(local, remote, worlds, turns, n, name) ==>
                           LostIn(s, seen, name, verify))
  }

  /** `more` are the instants of one turn from t to u for an app that needs an update. */
  ghost predicate TurnInstants(t: Files, u: Files, more: seq<Files>, app: string, w: World, verify: seq<byte> -> bool) {
    && (forall k :: 0 <= k < |more| ==> OneSafe(t, more[k], app, verify) && Recoverable(t, more[k], app, verify))
    && (w.opens ==> more != [] && more[0] == t[TmpPath(app) := Opened(t, app, w)])
    && (!w.opens ==> more == []) && (if more == [] then u == t else more[|more| - 1] == u)
  }

  lemma LossesStay(s: Files, t: Files, seen: seq<Files>, local: seq<App>, remote: seq<App>, worlds: seq<World>,
                   turns: seq<Files>, i: nat, verify: seq<byte> -> bool)
    requires i < |remote| == |worlds| && |turns| == i + 1 && !Newer(local, remote[i])
    requires LossesKnown(s, t, seen, local, remote, worlds, turns, i, verify)
    ensures LossesKnown(s, t, seen, local, remote, worlds, turns + [t], i + 1, verify)
  {
    forall name ensures Reopened(local, remote, worlds, turns + [t], i + 1, name) <==>
                        Reopened(local, remote, worlds, turns, i, name)
    {
      ReopenedNext(local, remote, worlds, turns, t, i, name);
    }
  }

  lemma ReopenedNext(local: seq<App>, remote: seq<App>, worlds: seq<World>, turns: seq<Files>, u: Files, i: nat,
                     name: string)
    requires i < |remote| == |worlds| && |turns| == i + 1
    ensures Reopened(local, remote, worlds, turns + [u], i + 1, name) <==>
            Reopened(local, remote, worlds, turns, i, name) || Reopens(local, remote[i], worlds[i], turns[i], name)
  {
    assert forall j :: 0 <= j <= i ==> (turns + [u])[j] == turns[j];
    if Reopened(local, remote, worlds, turns, i, name) {
      var j :| 0 <= j < i && Reopens(local, remote[j], worlds[j], turns[j], name);
      assert Reopens(local, remote[j], worlds[j], (turns + [u])[j], name);
    }
    if Reopens(local, remote[i], worlds[i], turns[i], name) {
      assert Reopens(local, remote[i], worlds[i], (turns + [u])[i], name);
    }
  }

  lemma LostInMore(s: Files, seen: seq<Files>, more: seq<Files>, name: string, verify: seq<byte> -> bool)
    ensures LostIn(s, seen + more, name, verify) <==> LostIn(s, seen, name, verify) || LostIn(s, more, name, verify)
  {
    var all := seen + more;
    assert forall k :: 0 <= k < |seen| ==> all[k] == seen[k];
    assert forall k :: 0 <= k < |more| ==> all[|seen| + k] == more[k];
  }

  lemma TurnLoses(s: Files, t: Files, u: Files, more: seq<Files>, app: string, w: World, name: string,
                  verify: seq<byte> -> bool)
    requires TurnInstants(t, u, more, app, w, verify) && Recoverable(s, t, name, verify)
    ensures LostIn(s, more, name, verify) || !Recoverable(s, u, name, verify) ==>
              w.opens && app == name && FinalPath(name) !in t
  {
    assert more != [] ==> more[|more| - 1] == u;
    if k :| 0 <= k < |more| && !Recoverable(s, more[k], name, verify) {
      LosesByOpening(s, t, more[k], app, name, verify);
    }
  }

  lemma TurnMustLose(s: Files, t: Files, u: Files, more: seq<Files>, app: string, w: World, verify: seq<byte> -> bool)
    requires TurnInstants(t, u, more, app, w, verify) && w.opens && w.truncates && !verify([])
    requires FinalPath(app) in s && FinalPath(app) !in t
    ensures LostIn(s, more, app, verify)
  {
    OpeningLoses(s, t, more[0], app, w, verify);
  }

  lemma LossesNext(s: Files, t: Files, u: Files, seen: seq<Files>, more: seq<Files>, local: seq<App>, remote: seq<App>,
                   worlds: seq<World>, turns: seq<Files>, i: nat, verify: seq<byte> -> bool)
    requires i < |remote| == |worlds| && |turns| == i + 1 && turns[i] == t && Newer(local, remote[i])
    requires LossesKnown(s, t, seen, local, remote, worlds, turns, i, verify)
    requires TurnInstants(t, u, more, remote[i].name, worlds[i], verify)
    ensures LossesKnown(s, u, seen + more, local, remote, worlds, turns + [u], i + 1, verify)
  {
    hide Recoverable, LostIn, TurnInstants, Reopened, Newer;
    forall name
      ensures LostIn(s, seen + more, name, verify) || !Recoverable(s, u, name, verify) ==>
                Reopened(local, remote, worlds, turns + [u], i + 1, name)
      ensures StartsEmpty(worlds, verify) && FinalPath(name) in s ==>
                (Reopened(local, remote, worlds, turns + [u], i + 1, name) ==> LostIn(s, seen + more, name, verify))
    {
      LostInMore(s, seen, more, name, verify);
      ReopenedNext(local, remote, worlds, turns, u, i, name);
      if Recoverable(s, t, name, verify) { TurnLoses(s, t, u, more, remote[i].name, worlds[i], name, verify); }
      if StartsEmpty(worlds, verify) && FinalPath(name) in s && Reopens(local, remote[i], worlds[i], t, name) {
        TurnMustLose(s, t, u, more, name, worlds[i], verify);
      }
    }
  }

  /** What one turn of the loop does, for any list: nothing if the app is not newer; otherwise it may touch the app's
      two paths, and the four ways the binary and its download can end up. */
  ghost predicate Turned(t: Files, u: Files, newer: bool, name: string, w: World, verify: seq<byte> -> bool) {
    var final, tmp := FinalPath(name), TmpPath(name);
    if !newer then u == t
    else
      && OneSafe(t, u, name, verify)
      && (if !w.opens then u == t
          else if !Accepted(t, name, w, verify) then
            SameAt(t, u, final) && (if w.clears then tmp !in u else tmp in u && u[tmp] == Over(Written(w.pieces), Opened(t, name, w)))
          else if w.renames then final in u && u[final] == Downloaded(t, name, w) && tmp !in u
          else
            && (if w.removes then final !in u else SameAt(t, u, final))
            && tmp in u && u[tmp] == Downloaded(t, name, w))
  }

  lemma OutcomeKept(s: Files, t: Files, u: Files, app: App, newer: bool, w: World, verify: seq<byte> -> bool)
    requires Outcome(s, t, app, newer, w, verify) && Untouched(t, u, app.name)
    ensures Outcome(s, u, app, newer, w, verify)
  {
  }

  lemma OutcomeNow(s: Files, t: Files, u: Files, app: App, w: World, verify: seq<byte> -> bool)
    requires Untouched(s, t, app.name) && Turned(t, u, true, app.name, w, verify)
    ensures Outcome(s, u, app, true, w, verify)
  {
  }

  lemma UntouchedTwice(s: Files, t: Files, u: Files, name: string)
    requires Untouched(s, t, name) && Untouched(t, u, name)
    ensures Untouched(s, u, name)
  {
  }

  class Card {
    var files: Files
    ghost var past: seq<Files>   // every state of the card so far, where the power may fail

    constructor (files: Files)
      ensures this.files == files && past == [files]
    {
      this.files := files;
      past := [files];
    }

    method Put(path: string, data: seq<byte>)
      modifies this
      ensures files == old(files)[path := data] && past == old(past) + [files] && OnlyAt(old(files), files, path)
    {
      files := files[path := data];
      past := past + [files];
    }

    method Remove(path: string, works: bool)
      modifies this
      ensures files == (if works then old(files) - {path} else old(files)) && past == old(past) + [files]
      ensures OnlyAt(old(files), files, path)
    {
      if works { files := files - {path}; }
      past := past + [files];
    }

    /** A rename is atomic: the power fails before it or after it. */
    method Rename(from: string, to: string, works: bool)
      requires from in files
      modifies this
      ensures files == (if works then (old(files) - {from})[to := old(files)[from]] else old(files))
      ensures past == old(past) + [files]
    {
      if works { files := (files - {from})[to := files[from]]; }
      past := past + [files];
    }

    /** http_stream with on_dl_chunk: the stream stops at the first piece that is not written whole. */
    method Download(name: string, w: World) returns (ok: bool)
      requires w.opens
      modifies this
      ensures ok <==> w.arrives && forall i :: 0 <= i < |w.pieces| ==> Complete(w.pieces[i])
      ensures old(past) <= past
      ensures forall k :: |old(past)| <= k < |past| ==> OnlyAt(old(files), past[k], TmpPath(name))
      ensures OnlyAt(old(files), files, TmpPath(name))
      ensures TmpPath(name) in files && (ok ==> files[TmpPath(name)] == Downloaded(old(files), name, w))
      ensures files[TmpPath(name)] == Over(Written(w.pieces), Opened(old(files), name, w))
      ensures |past| > |old(past)| && past[|old(past)|] == old(files)[TmpPath(name) := Opened(old(files), name, w)]
    {
      var path := TmpPath(name);
      var was := Opened(files, name, w);
      Put(path, was);
      var front: seq<byte>, status := [], true;
      var i := 0;
      assert Over([], was) == was;
      while i < |w.pieces| && status
        invariant 0 <= i <= |w.pieces|
        invariant path in files && files[path] == Over(front, was)
        invariant OnlyAt(old(files), files, path)
        invariant old(past) <= past && |past| > |old(past)| && past[|old(past)|] == old(files)[path := was]
        invariant forall k :: |old(past)| <= k < |past| ==> OnlyAt(old(files), past[k], path)
        invariant front == Written(w.pieces[..i])
        invariant status ==> forall j :: 0 <= j < i ==> Complete(w.pieces[j])
        invariant !status ==> exists j :: 0 <= j < i && !Complete(w.pieces[j])
      {
        var p := w.pieces[i];
        WrittenMore(w.pieces[..i], p);
        assert w.pieces[..i] + [p] == w.pieces[..i + 1];
        front := front + Part(p);
        ghost var before := files;
        Put(path, Over(front, was));
        OnlyAtTwice(old(files), before, files, path);
        if !Complete(p) { status := false; }
        i := i + 1;
      }
      DownloadEnds(w.pieces, i, status);
      ok := w.arrives && status;
    }

    /** Steps 4 and 5: the download, and its removal if it breaks off or is refused. */
    method Fetch(name: string, w: World, verify: seq<byte> -> bool) returns (ok: bool)
      modifies this
      ensures ok <==> Accepted(old(files), name, w, verify)
      ensures old(past) <= past
      ensures forall k :: |old(past)| <= k < |past| ==> OnlyAt(old(files), past[k], TmpPath(name))
      ensures OnlyAt(old(files), files, TmpPath(name))
      ensures ok ==> TmpPath(name) in files && files[TmpPath(name)] == Downloaded(old(files), name, w)
      ensures ok ==> w.opens && verify(files[TmpPath(name)])
      ensures w.opens && !ok && w.clears ==> TmpPath(name) !in files
      ensures w.opens && !ok && !w.clears ==>
                TmpPath(name) in files && files[TmpPath(name)] == Over(Written(w.pieces), Opened(old(files), name, w))
      ensures !w.opens ==> past == old(past) && files == old(files)
      ensures w.opens ==>
                (|past| > |old(past)| && past[|old(past)|] == old(files)[TmpPath(name) := Opened(old(files), name, w)]
                 && (ok || past[|past| - 1] == files))
    {
      hide SameAt, OnlyAt, Downloaded, Opened;
      if !w.opens {
        OnlyAtSelf(files, TmpPath(name));
        return false;
      }
      ok := Download(name, w);
      ok := ok && verify(files[TmpPath(name)]);
      if !ok {
        ghost var done := files;
        Remove(TmpPath(name), w.clears);
        OnlyAtTwice(old(files), done, files, TmpPath(name));
      }
    }

    /** Step 6, two instants: the binary removed, and the accepted download renamed. */
    method Swap(ghost s: Files, name: string, w: World, verify: seq<byte> -> bool)
      requires OnlyAt(s, files, TmpPath(name)) && TmpPath(name) in files && verify(files[TmpPath(name)])
      modifies this
      ensures old(past) <= past && |past| == |old(past)| + 2 && past[|past| - 1] == files
      ensures var gap := past[|past| - 2];
        && OneSafe(s, gap, name, verify) && Recoverable(s, gap, name, verify)
        && (if w.removes then FinalPath(name) !in gap else gap == old(files))
      ensures FinalPath(name) in s && !w.removes ==> FinalPath(name) in files
      ensures OneSafe(s, files, name, verify) && Recoverable(s, files, name, verify)
      ensures if w.renames then
                FinalPath(name) in files && files[FinalPath(name)] == old(files)[TmpPath(name)] && TmpPath(name) !in files
              else
                && (if w.removes then FinalPath(name) !in files else SameAt(s, files, FinalPath(name)))
                && TmpPath(name) in files && files[TmpPath(name)] == old(files)[TmpPath(name)]
    {
      hide SameAt, OnlyAt, OneSafe, Recoverable;
      TmpOnly(s, files, name, verify);
      Replace(s, files, name, w.removes, w.renames, verify);
      Remove(FinalPath(name), w.removes);
      Rename(TmpPath(name), FinalPath(name), w.renames);
    }

    /** Steps 4 to 6 for one app that needs an update. A binary that was installed is missing at some instant, so
        that a power failure there leaves none, exactly when its successor was accepted and the remove works. */
    method Install(name: string, w: World, verify: seq<byte> -> bool)
      modifies this
      ensures old(past) <= past
      ensures forall k :: |old(past)| <= k < |past| ==>
                OneSafe(old(files), past[k], name, verify) && Recoverable(old(files), past[k], name, verify)
      ensures OneSafe(old(files), files, name, verify) && Recoverable(old(files), files, name, verify)
      ensures Turned(old(files), files, true, name, w, verify)
      ensures !w.opens ==> past == old(past) && files == old(files)
      ensures past != old(past) ==> past[|past| - 1] == files
      ensures w.opens ==>
                (|past| > |old(past)| && past[|old(past)|] == old(files)[TmpPath(name) := Opened(old(files), name, w)])
      ensures FinalPath(name) in old(files) ==>
                ((exists k :: |old(past)| <= k < |past| && FinalPath(name) !in past[k]) <==>
                 Accepted(old(files), name, w, verify) && w.removes)
    {
      hide SameAt, OnlyAt, OneSafe, Recoverable, Downloaded, Opened, Accepted;
      ghost var s := files;
      forall t | OnlyAt(s, t, TmpPath(name))
        ensures OneSafe(s, t, name, verify) && Recoverable(s, t, name, verify) && SameAt(s, t, FinalPath(name))
        ensures FinalPath(name) in s ==> FinalPath(name) in t
      {
        TmpOnly(s, t, name, verify);
      }
      var ok := Fetch(name, w, verify);
      if ok {
        ghost var gap := |past|;
        Swap(s, name, w, verify);
        assert w.removes ==> FinalPath(name) !in past[gap];
      }
    }

    /** run_ota_update with both app lists at hand; worlds[i] is what app i meets. `turns` are the states between the
        turns of its loop. */
    method Update(local: seq<App>, remote: seq<App>, worlds: seq<World>, verify: seq<byte> -> bool)
      returns (ghost turns: seq<Files>)
      requires |worlds| == |remote|
      modifies this
      ensures old(past) <= past
      ensures forall k :: |old(past)| <= k < |past| ==> Good(old(files), past[k], local, remote, worlds, verify)
      ensures Good(old(files), files, local, remote, worlds, verify)
      ensures |turns| == |remote| + 1 && turns[0] == old(files) && turns[|remote|] == files
      ensures forall i :: 0 <= i < |remote| ==>
                Turned(turns[i], turns[i + 1], Newer(local, remote[i]), remote[i].name, worlds[i], verify)
      ensures forall i :: 0 <= i < |remote| && Once(remote, remote[i].name) ==>
                Outcome(old(files), files, remote[i], Newer(local, remote[i]), worlds[i], verify)
      ensures forall name :: LostIn(old(files), past[|old(past)|..], name, verify) ==>
                Reopened(local, remote, worlds, turns, |remote|, name)
      ensures StartsEmpty(worlds, verify) ==>
                forall name :: LostIn(old(files), past[|old(past)|..], name, verify) <==>
                               FinalPath(name) in old(files) && Reopened(local, remote, worlds, turns, |remote|, name)
    {
      hide Good, Outcome, Turned, Explained, Untouched, Once, LossesKnown, Newer, LostIn, StartsEmpty;
      var needs, updates := Compare(local, remote);
      ghost var s, start, seen: seq<Files> := files, past, [];
      turns := [s];
      StartsWell(s, local, remote, worlds, verify);
      if updates == 0 {
        turns := seq(|remote| + 1, i => s);
        NothingNewer(s, local, remote, worlds, verify);
        Outcomes(turns, local, remote, worlds, verify);
        Losses(s, s, seen, local, remote, worlds, turns, verify);
        assert past[|start|..] == seen;
        return;
      }
      for i := 0 to |remote|
        invariant past == start + seen
        invariant forall k :: 0 <= k < |seen| ==> Good(s, seen[k], local, remote, worlds, verify)
        invariant Good(s, files, local, remote, worlds, verify)
        invariant Explained(s, files, local, remote, worlds, i)
        invariant |turns| == i + 1 && turns[0] == s && turns[i] == files
        invariant forall j :: 0 <= j < i ==>
                    Turned(turns[j], turns[j + 1], Newer(local, remote[j]), remote[j].name, worlds[j], verify)
        invariant LossesKnown(s, files, seen, local, remote, worlds, turns, i, verify)
      {
        ghost var t, more: seq<Files> := files, [];
        if needs[i] {
          more := InstallNext(s, local, remote, i, worlds, verify);
          LossesNext(s, t, files, seen, more, local, remote, worlds, turns, i, verify);
        } else {
          StillTurned(t, remote[i].name, worlds[i], verify);
          LossesStay(s, t, seen, local, remote, worlds, turns, i, verify);
          assert seen + [] == seen;
        }
        ExplainedNext(s, t, files, local, remote, worlds, i, verify);
        turns := turns + [files];
        assert start + seen + more == start + (seen + more);
        seen := seen + more;
      }
      Outcomes(turns, local, remote, worlds, verify);
      Losses(s, files, seen, local, remote, worlds, turns, verify);
      assert past[|start|..] == seen;
    }

    /** One turn of the loop, seen from the start of the update. */
    method InstallNext(ghost s: Files, ghost local: seq<App>, remote: seq<App>, i: nat, worlds: seq<World>,
                       verify: seq<byte> -> bool) returns (ghost more: seq<Files>)
      requires i < |remote| == |worlds| && Newer(local, remote[i])
      requires Good(s, files, local, remote, worlds, verify) && Explained(s, files, local, remote, worlds, i)
      modifies this
      ensures past == old(past) + more
      ensures forall k :: 0 <= k < |more| ==> Good(s, more[k], local, remote, worlds, verify)
      ensures Good(s, files, local, remote, worlds, verify)
      ensures Turned(old(files), files, true, remote[i].name, worlds[i], verify)
      ensures TurnInstants(old(files), files, more, remote[i].name, worlds[i], verify)
    {
      hide Good, OneSafe, Recoverable, Turned, Explained, Newer;
      ghost var t, start := files, past;
      var name := remote[i].name;
      Install(name, worlds[i], verify);
      more := past[|start|..];
      forall u | OneSafe(t, u, name, verify) && Recoverable(t, u, name, verify)
        ensures Good(s, u, local, remote, worlds, verify)
      {
        GoodThenOne(s, t, u, local, remote, worlds, i, verify);
      }
      assert forall k :: 0 <= k < |more| ==> more[k] == past[|start| + k];
    }
  }

  lemma DownloadEnds(pieces: seq<Piece>, i: nat, status: bool)
    requires i <= |pieces| && (status ==> i == |pieces| && forall j :: 0 <= j < i ==> Complete(pieces[j]))
    requires !status ==> exists j :: 0 <= j < i && !Complete(pieces[j])
    ensures Written(pieces[..i]) == Written(pieces) && (status ==> Written(pieces) == Concat(pieces))
  {
    assert pieces == pieces[..i] + pieces[i..];
    if status {
      WrittenWhole(pieces);
      assert pieces[..i] == pieces;
    } else {
      var j :| 0 <= j < i && !Complete(pieces[j]);
      WrittenStops(pieces[..i], pieces[i..], j);
    }
  }

  // ---------- whole updates ----------

  lemma StartsWell(s: Files, local: seq<App>, remote: seq<App>, worlds: seq<World>, verify: seq<byte> -> bool)
    requires |worlds| == |remote|
    ensures Good(s, s, local, remote, worlds, verify) && Explained(s, s, local, remote, worlds, 0)
    ensures LossesKnown(s, s, [], local, remote, worlds, [s], 0, verify)
  {
  }

  lemma NothingNewer(s: Files, local: seq<App>, remote: seq<App>, worlds: seq<World>, verify: seq<byte> -> bool)
    requires |worlds| == |remote| && forall i :: 0 <= i < |remote| ==> !Newer(local, remote[i])
    ensures var turns := seq(|remote| + 1, i => s);
      Chain(turns, local, remote, worlds, verify) && LossesKnown(s, s, [], local, remote, worlds, turns, |remote|, verify)
  {
  }

  /** What LossesKnown says once the loop is over. */
  lemma Losses(s: Files, now: Files, seen: seq<Files>, local: seq<App>, remote: seq<App>, worlds: seq<World>,
               turns: seq<Files>, verify: seq<byte> -> bool)
    requires |remote| == |worlds| && |turns| == |remote| + 1
    requires LossesKnown(s, now, seen, local, remote, worlds, turns, |remote|, verify)
    ensures forall name :: LostIn(s, seen, name, verify) ==> Reopened(local, remote, worlds, turns, |remote|, name)
    ensures StartsEmpty(worlds, verify) ==>
              forall name :: LostIn(s, seen, name, verify) <==>
                             FinalPath(name) in s && Reopened(local, remote, worlds, turns, |remote|, name)
  {
    forall name | LostIn(s, seen, name, verify) ensures FinalPath(name) in s {
    }
  }

  lemma StillTurned(t: Files, name: string, w: World, verify: seq<byte> -> bool)
    ensures Turned(t, t, false, name, w, verify)
  {
  }

  ghost predicate Chain(turns: seq<Files>, local: seq<App>, remote: seq<App>, worlds: seq<World>,
                        verify: seq<byte> -> bool)
    requires |worlds| == |remote|
  {
    |turns| == |remote| + 1 &&
    forall i :: 0 <= i < |remote| ==>
      Turned(turns[i], turns[i + 1], Newer(local, remote[i]), remote[i].name, worlds[i], verify)
  }

  /** A name no turn in between is about is left alone. */
  lemma {:induction false} Between(turns: seq<Files>, local: seq<App>, remote: seq<App>, worlds: seq<World>,
                                   verify: seq<byte> -> bool, a: nat, b: nat, name: string)
    requires |worlds| == |remote| && Chain(turns, local, remote, worlds, verify) && a <= b <= |remote|
    requires forall j :: a <= j < b ==> remote[j].name != name
    ensures Untouched(turns[a], turns[b], name)
    decreases b - a
  {
    if a < b {
      Between(turns, local, remote, worlds, verify, a, b - 1, name);
      if Newer(local, remote[b - 1]) { OthersUntouched(turns[b - 1], turns[b], remote[b - 1].name, name, verify); }
      hide Chain;
      UntouchedTwice(turns[a], turns[b - 1], turns[b], name);
    }
  }

  /** How each app that is listed once ends up, from the start of the update to its end. */
  lemma Outcomes(turns: seq<Files>, local: seq<App>, remote: seq<App>, worlds: seq<World>, verify: seq<byte> -> bool)
    requires |worlds| == |remote| && Chain(turns, local, remote, worlds, verify)
    ensures forall i :: 0 <= i < |remote| && Once(remote, remote[i].name) ==>
              Outcome(turns[0], turns[|remote|], remote[i], Newer(local, remote[i]), worlds[i], verify)
  {
    forall i | 0 <= i < |remote| && Once(remote, remote[i].name)
      ensures Outcome(turns[0], turns[|remote|], remote[i], Newer(local, remote[i]), worlds[i], verify)
    {
      Between(turns, local, remote, worlds, verify, 0, i, remote[i].name);
      Between(turns, local, remote, worlds, verify, i + 1, |remote|, remote[i].name);
      hide Once;
      OnceOutcome(turns[0], turns[i], turns[i + 1], turns[|remote|], Newer(local, remote[i]), remote[i], worlds[i], verify);
    }
  }

  lemma OnceOutcome(s: Files, t: Files, u: Files, v: Files, newer: bool, app: App, w: World, verify: seq<byte> -> bool)
    requires Untouched(s, t, app.name) && Turned(t, u, newer, app.name, w, verify) && Untouched(u, v, app.name)
    ensures Outcome(s, v, app, newer, w, verify)
  {
    if newer { OutcomeNow(s, t, u, app, w, verify); }
    OutcomeKept(s, u, v, app, newer, w, verify);
  }

  // ---------- where the promises end ----------

  predicate IsTwo(data: seq<byte>) {
    data == [2]
  }

  /** An update that goes well in every respect, and an instant in it without the binary. */
  method BinaryMissing() returns (c: Card)
    ensures exists k :: 0 < k < |c.past| && FinalPath("clock") in c.past[0] && FinalPath("clock") !in c.past[k]
    ensures FinalPath("clock") in c.files && c.files[FinalPath("clock")] == [2]
  {
    var w := World(true, true, [Piece([2], 1, true)], true, true, true, true);
    c := new Card(map[FinalPath("clock") := [1]]);
    ghost var before := c.files;
    DownloadOf(before, "clock", w, [2]);
    c.Install("clock", w, IsTwo);
    assert Accepted(before, "clock", w, IsTwo);
  }

  lemma DownloadOf(files: Files, name: string, w: World, data: seq<byte>)
    requires w.opens && w.truncates && w.arrives && w.pieces == [Piece(data, |data|, true)]
    ensures Downloaded(files, name, w) == data
  {
    assert w.pieces[1..] == [] && Concat(w.pieces) == data + [];
    assert Over(data, []) == data;
  }

  /** A name listed twice. The first rename fails, so the only copy left is the download; the second download
      overwrites it and breaks off. Binary and verified download are both gone. */
  method DuplicateLosesBoth() returns (c: Card)
    ensures exists k :: 0 < k < |c.past| && !Recoverable(c.past[0], c.past[k], "clock", IsTwo)
  {
    var first := World(true, true, [Piece([2], 1, true)], true, true, true, false);
    var second := World(true, true, [], false, true, true, true);
    c := new Card(map[FinalPath("clock") := [1]]);
    ghost var before := c.files;
    DownloadOf(before, "clock", first, [2]);
    c.Install("clock", first, IsTwo);
    assert FinalPath("clock") !in c.files;
    PathsApart("clock", "clock");
    ghost var n, mid, start := |c.past|, c.files, c.past[0];
    assert start == before && n > 0;
    c.Install("clock", second, IsTwo);
    assert c.past[0] == start && c.past[n] == mid[TmpPath("clock") := []];
    assert FinalPath("clock") !in c.past[n] && TmpPath("clock") in c.past[n];
    assert !Recoverable(c.past[0], c.past[n], "clock", IsTwo);
  }
}
