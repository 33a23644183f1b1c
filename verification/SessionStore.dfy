/**
  The store of traffic sessions (crates/dynet-runtime/src/traffic_session.rs), which evicts the oldest,
  beside the table of rows (crates/dynet-runtime/src/persistence.rs), which does not.
*/
module SessionStores {
  import opened ByteStrings
  import opened Orders
  import opened TrafficSessions

  // ---- The store ----

  const SESSION_LIMIT := 1024

  function Kept(m: map<string, Session>, u: Update): map<string, Session> {
    m[u.key := Applied(if u.key in m then m[u.key] else NewSession(u), u)]
  }

  function Upserted(t: map<string, Row>, u: Update): map<string, Row> {
    t[u.key := if u.key in t then Updated(t[u.key], u) else Inserted(u)]
  }

  predicate NotYounger(m: map<string, Session>, j: string, k: string)
    requires j in m && k in m
  {
    m[j].lastObserved < m[k].lastObserved || (m[j].lastObserved == m[k].lastObserved && IdLe(j, k))
  }

  lemma NotYoungerOrder(m: map<string, Session>, i: string, j: string, k: string)
    requires i in m && j in m && k in m
    ensures NotYounger(m, i, i) && (NotYounger(m, i, j) || NotYounger(m, j, i))
    ensures NotYounger(m, i, j) && NotYounger(m, j, k) ==> NotYounger(m, i, k)
  {
    IdLeTotal(i, i);
    IdLeTotal(i, j);
    if IdLe(i, j) && IdLe(j, k) {
      IdLeTransitive(i, j, k);
    }
  }

  predicate IsOldest(m: map<string, Session>, k: string) {
    k in m && forall j :: j in m ==> NotYounger(m, k, j)
  }

  /** What the store keeps when u arrives: everything, unless a new key meets a full store. */
  ghost predicate Accommodates(before: map<string, Session>, u: Update, after: map<string, Session>) {
    if u.key in before || |before| < SESSION_LIMIT then after == Kept(before, u)
    else exists k :: IsOldest(before, k) && after == Kept(before - {k}, u)
  }

  ghost predicate Roomy(before: map<string, Session>, key: string, dropped: Option<string>, after: map<string, Session>) {
    match dropped
    case None => (key in before || |before| < SESSION_LIMIT) && after == before
    case Some(k) => key !in before && |before| >= SESSION_LIMIT && IsOldest(before, k) && after == before - {k}
  }

  lemma RoomThenUpdate(before: map<string, Session>, u: Update, dropped: Option<string>, roomy: map<string, Session>)
    requires Roomy(before, u.key, dropped, roomy)
    ensures Accommodates(before, u, Kept(roomy, u))
  {
  }

  lemma AddThenUpdate(m: map<string, Session>, u: Update)
    ensures u.key !in m ==> Kept(m[u.key := NewSession(u)], u) == Kept(m, u)
  {
  }

  /** At most the limit, the same keys in both, and no two keys share a session object. */
  ghost predicate Shape(sessions: map<string, TrafficSession>, contents: map<string, Session>) {
    && |sessions| <= SESSION_LIMIT && contents.Keys == sessions.Keys
    && forall i, j :: i in sessions && j in sessions && i != j ==> sessions[i] != sessions[j]
  }

  lemma ShapeInsert(sessions: map<string, TrafficSession>, contents: map<string, Session>,
                    key: string, session: TrafficSession, state: Session)
    requires Shape(sessions, contents) && key !in sessions && |sessions| < SESSION_LIMIT
    requires forall k :: k in sessions ==> sessions[k] != session
    ensures Shape(sessions[key := session], contents[key := state])
  {
    assert sessions[key := session].Keys == sessions.Keys + {key};
  }

  lemma ShapeRemove(sessions: map<string, TrafficSession>, contents: map<string, Session>, key: string)
    requires Shape(sessions, contents) && key in sessions
    ensures Shape(sessions - {key}, contents - {key}) && |sessions - {key}| == |sessions| - 1
    ensures |contents| == |sessions|
  {
    assert (sessions - {key}).Keys == sessions.Keys - {key};
    assert |sessions.Keys| == |contents.Keys|;
  }

  lemma ShapeUpdate(sessions: map<string, TrafficSession>, contents: map<string, Session>, u: Update)
    requires Shape(sessions, contents) && u.key in sessions
    ensures Shape(sessions, Kept(contents, u))
  {
  }

  class TrafficSessionStore {
    var sessions: map<string, TrafficSession>
    /** The states of the session objects. */
    ghost var contents: map<string, Session>

    ghost predicate Valid()
      reads this, sessions.Values
    {
      && Shape(sessions, contents)
      && forall k :: k in sessions ==> sessions[k].State() == contents[k]
    }

    constructor ()
      ensures Valid() && sessions == map[]
    {
      sessions, contents := map[], map[];
    }

    /** `oldest_session_key`: the least by time of last observation, then by key. */
    method OldestKey() returns (oldest: string)
      requires Valid() && sessions != map[]
      ensures IsOldest(contents, oldest)
    {
      ghost var m := contents;
      var k :| k in sessions;
      oldest := k;
      NotYoungerOrder(m, k, k, k);
      var rest := sessions.Keys - {k};
      while rest != {}
        invariant rest <= sessions.Keys && oldest in sessions
        invariant forall j :: j in sessions.Keys - rest ==> NotYounger(m, oldest, j)
        decreases |rest|
      {
        var j :| j in rest;
        ghost var before := oldest;
        var a, b := sessions[oldest].lastObserved, sessions[j].lastObserved;
        assert a == m[oldest].lastObserved && b == m[j].lastObserved;
        if !(a < b || (a == b && IdLe(oldest, j))) {
          oldest := j;
        }
        forall i | i in sessions.Keys - (rest - {j})
          ensures NotYounger(m, oldest, i)
        {
          NotYoungerOrder(m, before, j, j);
          NotYoungerOrder(m, j, before, i);
          NotYoungerOrder(m, j, j, j);
        }
        rest := rest - {j};
      }
    }

    method Drop(key: string)
      requires Valid() && key in sessions
      modifies `sessions, `contents
      ensures Valid() && sessions == old(sessions) - {key} && contents == old(contents) - {key}
      ensures |sessions| == |old(sessions)| - 1
    {
      ShapeRemove(sessions, contents, key);
      ghost var before := contents;
      sessions, contents := sessions - {key}, contents - {key};
      forall k | k in sessions
        ensures sessions[k].State() == contents[k]
      {
        assert contents[k] == before[k];
      }
    }

    /** Room for a new key in a full store: the oldest session goes, and that one only. */
    method MakeRoom(key: string) returns (ghost dropped: Option<string>)
      requires Valid()
      modifies `sessions, `contents
      ensures Valid() && Roomy(old(contents), key, dropped, contents)
      ensures sessions.Values <= old(sessions.Values)
      ensures key in sessions || |sessions| < SESSION_LIMIT
    {
      dropped := None;
      assert |sessions.Keys| == |contents.Keys|;
      if key !in sessions && |sessions| == SESSION_LIMIT {
        var oldest := OldestKey();
        Drop(oldest);
        dropped := Some(oldest);
      }
    }

    method Insert(key: string, session: TrafficSession, ghost state: Session)
      requires Valid() && key !in sessions && |sessions| < SESSION_LIMIT
      requires session.State() == state && forall k :: k in sessions ==> sessions[k] != session
      modifies `sessions, `contents
      ensures Valid() && sessions == old(sessions)[key := session] && contents == old(contents)[key := state]
    {
      ShapeInsert(sessions, contents, key, session, state);
      sessions, contents := sessions[key := session], contents[key := state];
    }

    /** A new session object for a key that has none. */
    method AddEntry(u: Update)
      requires Valid() && u.key !in sessions && |sessions| < SESSION_LIMIT
      modifies this
      ensures Valid() && u.key in sessions && contents == old(contents)[u.key := NewSession(u)]
      ensures forall k :: k in sessions ==> sessions[k] in old(sessions.Values) || fresh(sessions[k])
    {
      var session := new TrafficSession(u);
      Insert(u.key, session, NewSession(u));
    }

    /** The entry of a key is updated in place. */
    method UpdateEntry(u: Update)
      requires Valid() && u.key in sessions
      modifies this, sessions.Values
      ensures Valid() && sessions == old(sessions) && contents == Kept(old(contents), u)
    {
      var entry := sessions[u.key];
      ghost var before := contents;
      ShapeUpdate(sessions, contents, u);
      entry.ApplyUpdate(u);
      contents := Kept(before, u);
      forall k | k in sessions
        ensures sessions[k].State() == contents[k]
      {
        if k != u.key {
          assert sessions[k] != entry && contents[k] == before[k];
        }
      }
    }

    method ApplyUpdate(u: Update)
      requires Valid()
      modifies this, sessions.Values
      ensures Valid() && Accommodates(old(contents), u, contents)
      ensures forall k :: k in sessions ==> sessions[k] in old(sessions.Values) || fresh(sessions[k])
    {
      ghost var was := contents;
      ghost var dropped := MakeRoom(u.key);
      ghost var roomy := contents;
      Upsert(u);
      RoomThenUpdate(was, u, dropped, roomy);
    }

    method Upsert(u: Update)
      requires Valid() && (u.key in sessions || |sessions| < SESSION_LIMIT)
      modifies this, sessions.Values
      ensures Valid() && contents == Kept(old(contents), u)
      ensures forall k :: k in sessions ==> sessions[k] in old(sessions.Values) || fresh(sessions[k])
    {
      AddThenUpdate(contents, u);
      EnsureEntry(u);
      UpdateEntry(u);
    }

    /** `entry(..).or_insert_with(..)`. */
    method EnsureEntry(u: Update)
      requires Valid() && (u.key in sessions || |sessions| < SESSION_LIMIT)
      modifies this
      ensures Valid() && u.key in sessions
      ensures contents == if u.key in old(contents) then old(contents) else old(contents)[u.key := NewSession(u)]
      ensures forall k :: k in sessions ==> sessions[k] in old(sessions.Values) || fresh(sessions[k])
    {
      if u.key !in sessions {
        AddEntry(u);
      }
    }

    /**
      A run from an empty store: each session it holds is the fold of its key's updates since the key
      was last evicted.
    */
    method RecordAll(us: seq<Update>)
      requires Valid() && sessions == map[]
      modifies this
      ensures Valid() && contents == Folded(Recent(us))
    {
      for i := 0 to |us|
        invariant Valid() && Reached(us, i, contents)
        invariant forall k :: k in sessions ==> fresh(sessions[k])
      {
        ghost var before := contents;
        ApplyUpdate(us[i]);
        RecentNext(us, i, before, contents);
      }
      assert us[..|us|] == us;
      assert contents == Folded(Recent(us[..|us|]));
    }
  }

  // ---- What a run leaves in the store ----

  /** For each key the updates it has received since it was last new to the store. */
  type Recents = r: map<string, seq<Update>> | forall k :: k in r ==> r[k] != []
    witness map[]

  ghost function Folded(r: Recents): (m: map<string, Session>)
    ensures m.Keys == r.Keys
  {
    map k | k in r :: SessionFold(r[k])
  }

  lemma {:induction false} OldestExists(m: map<string, Session>, keys: set<string>)
    requires keys != {} && keys == m.Keys
    ensures exists k :: IsOldest(m, k)
    decreases |keys|
  {
    var k :| k in keys;
    NotYoungerOrder(m, k, k, k);
    if keys == {k} {
      assert IsOldest(m, k);
    } else {
      var rest := m - {k};
      assert rest.Keys == keys - {k};
      OldestExists(rest, keys - {k});
      var j :| IsOldest(rest, j);
      OlderOfTwo(m, k, j);
    }
  }

  lemma OlderOfTwo(m: map<string, Session>, k: string, j: string)
    requires k in m && j != k && IsOldest(m - {k}, j)
    ensures exists x :: IsOldest(m, x)
  {
    var x := if NotYounger(m, k, j) then k else j;
    forall i | i in m
      ensures NotYounger(m, x, i)
    {
      NotYoungerOrder(m, k, j, i);
      NotYoungerOrder(m, j, k, i);
      if i != k {
        assert NotYounger(m - {k}, j, i);
      }
    }
    assert IsOldest(m, x);
  }

  lemma OldestIsUnique(m: map<string, Session>, j: string, k: string)
    requires IsOldest(m, j) && IsOldest(m, k)
    ensures j == k
  {
    IdLeTotal(j, k);
  }

  ghost function OldestOf(m: map<string, Session>): (k: string)
    requires m.Keys != {}
    ensures IsOldest(m, k)
  {
    OldestExists(m, m.Keys);
    var k :| IsOldest(m, k);
    k
  }

  /** What is left after making room for a key. */
  ghost function Roomier(r: Recents, key: string): (q: Recents)
    ensures q.Keys <= r.Keys && forall k :: k in q ==> q[k] == r[k]
  {
    if key in r || |r.Keys| < SESSION_LIMIT then r
    else
      var q := r - {OldestOf(Folded(r))};
      q
  }

  ghost function Appended(r: Recents, u: Update): (q: Recents)
    ensures q.Keys == r.Keys + {u.key}
  {
    r[u.key := (if u.key in r then r[u.key] else []) + [u]]
  }

  ghost function Recent(us: seq<Update>): Recents {
    if us == [] then map[]
    else
      var r, u := Recent(us[..|us| - 1]), us[|us| - 1];
      Appended(Roomier(r, u.key), u)
  }

  lemma SessionFoldSnoc(mine: seq<Update>, u: Update)
    ensures SessionFold(mine + [u]) == Applied(if mine == [] then NewSession(u) else SessionFold(mine), u)
  {
    assert (mine + [u])[..|mine|] == mine;
  }

  lemma IsUpdate(a: map<string, Session>, m: map<string, Session>, key: string, v: Session)
    requires a.Keys == m.Keys + {key} && a[key] == v && forall k :: k in m && k != key ==> a[k] == m[k]
    ensures a == m[key := v]
  {
  }

  lemma FoldedAppended(r: Recents, u: Update)
    ensures Folded(Appended(r, u)) == Kept(Folded(r), u)
  {
    var v := Folded(Appended(r, u))[u.key];
    FoldedOwn(r, u);
    FoldedOthers(r, u);
    IsUpdate(Folded(Appended(r, u)), Folded(r), u.key, v);
  }

  lemma FoldedOwn(r: Recents, u: Update)
    ensures Folded(Appended(r, u))[u.key] == Kept(Folded(r), u)[u.key]
  {
    SessionFoldSnoc(if u.key in r then r[u.key] else [], u);
  }

  lemma FoldedOthers(r: Recents, u: Update)
    ensures forall k :: k in Folded(r) && k != u.key ==> Folded(Appended(r, u))[k] == Folded(r)[k]
  {
    assert forall k :: k in r && k != u.key ==> Appended(r, u)[k] == r[k];
  }

  lemma FoldedDrop(r: Recents, q: Recents, k: string)
    requires k in r && q == r - {k}
    ensures Folded(q) == Folded(r) - {k}
  {
  }

  lemma FoldedRoomier(r: Recents, u: Update, m: map<string, Session>, after: map<string, Session>)
    requires m == Folded(r) && Accommodates(m, u, after)
    ensures after == Kept(Folded(Roomier(r, u.key)), u)
  {
    assert |m.Keys| == |r.Keys|;
    if u.key !in r && |r.Keys| >= SESSION_LIMIT {
      var k :| IsOldest(m, k) && after == Kept(m - {k}, u);
      OldestIsUnique(m, k, OldestOf(m));
      FoldedDrop(r, Roomier(r, u.key), k);
    }
  }

  lemma RecentSnoc(us: seq<Update>, i: nat)
    requires i < |us|
    ensures Recent(us[..i + 1]) == Appended(Roomier(Recent(us[..i]), us[i].key), us[i])
  {
    assert us[..i + 1][..i] == us[..i];
  }

  /** The contents after the first i updates. */
  ghost predicate Reached(us: seq<Update>, i: nat, m: map<string, Session>) {
    i <= |us| && forall r: Recents {:trigger Folded(r)} :: r == Recent(us[..i]) ==> m == Folded(r)
  }

  lemma RecentNext(us: seq<Update>, i: nat, before: map<string, Session>, after: map<string, Session>)
    requires i < |us| && Reached(us, i, before) && Accommodates(before, us[i], after)
    ensures Reached(us, i + 1, after)
  {
    assert before == Folded(Recent(us[..i]));
    RecentSnoc(us, i);
    FoldedStep(Recent(us[..i]), us[i], before, after);
  }

  lemma FoldedStep(r: Recents, u: Update, before: map<string, Session>, after: map<string, Session>)
    requires before == Folded(r) && Accommodates(before, u, after)
    ensures after == Folded(Appended(Roomier(r, u.key), u))
  {
    FoldedRoomier(r, u, before, after);
    FoldedAppended(Roomier(r, u.key), u);
  }

  /** The updates of one key. */
  function Of(us: seq<Update>, k: string): seq<Update> {
    if us == [] then []
    else
      var front, last := Of(us[..|us| - 1], k), us[|us| - 1];
      if last.key == k then front + [last] else front
  }

  predicate IsSuffix(a: seq<Update>, b: seq<Update>) {
    |a| <= |b| && b[|b| - |a|..] == a
  }

  lemma SuffixSnoc(a: seq<Update>, b: seq<Update>, u: Update)
    requires IsSuffix(a, b)
    ensures IsSuffix(a + [u], b + [u]) && IsSuffix([u], b + [u])
  {
    assert (b + [u])[|b| - |a|..] == a + [u];
  }

  /** They are the last ones the key received. */
  lemma {:induction false} RecentIsSuffix(us: seq<Update>, k: string)
    requires k in Recent(us)
    ensures IsSuffix(Recent(us)[k], Of(us, k))
  {
    var n := |us| - 1;
    var r, u := Recent(us[..n]), us[n];
    if k in r {
      RecentIsSuffix(us[..n], k);
    }
    SuffixStep(r, u, k, Of(us[..n], k));
  }

  lemma SuffixStep(r: Recents, u: Update, k: string, all: seq<Update>)
    requires k in Appended(Roomier(r, u.key), u) && (k in r ==> IsSuffix(r[k], all))
    ensures IsSuffix(Appended(Roomier(r, u.key), u)[k], if u.key == k then all + [u] else all)
  {
    var q := Roomier(r, u.key);
    if u.key == k {
      SuffixSnoc(if k in q then q[k] else [], all, u);
    }
  }

  ghost function KeysOf(us: seq<Update>): set<string> {
    set i | 0 <= i < |us| :: us[i].key
  }

  lemma KeysSnoc(us: seq<Update>, n: nat)
    requires |us| == n + 1
    ensures KeysOf(us) == KeysOf(us[..n]) + {us[n].key}
  {
    assert forall i :: 0 <= i < n ==> us[..n][i] == us[i];
  }

  lemma {:induction false} SubsetSize(a: set<string>, b: set<string>)
    requires a <= b
    ensures |a| <= |b|
    decreases |a|
  {
    if x :| x in a {
      SubsetSize(a - {x}, b - {x});
    }
  }

  /** A run over at most 1024 keys never evicts: every key keeps all its updates. */
  lemma {:induction false} FewKeysStay(us: seq<Update>)
    requires |KeysOf(us)| <= SESSION_LIMIT
    ensures Recent(us).Keys == KeysOf(us) && forall k :: k in Recent(us) ==> Recent(us)[k] == Of(us, k)
  {
    if us != [] {
      var n := |us| - 1;
      KeysSnoc(us, n);
      SubsetSize(KeysOf(us[..n]), KeysOf(us));
      FewKeysStay(us[..n]);
      var r, u := Recent(us[..n]), us[n];
      if u.key !in r {
        assert |r.Keys + {u.key}| == |r.Keys| + 1;
        OfAbsent(us[..n], u.key);
      }
      assert Roomier(r, u.key) == r;
      StaysStep(us, r, u, n);
    }
  }

  lemma StaysStep(us: seq<Update>, r: Recents, u: Update, n: nat)
    requires |us| == n + 1 && u == us[n] && (u.key !in r ==> Of(us[..n], u.key) == [])
    requires forall k :: k in r ==> r[k] == Of(us[..n], k)
    ensures forall k :: k in Appended(r, u) ==> Appended(r, u)[k] == Of(us, k)
  {
  }

  lemma {:induction false} OfAbsent(us: seq<Update>, k: string)
    requires k !in KeysOf(us)
    ensures Of(us, k) == []
  {
    if us != [] {
      var n := |us| - 1;
      KeysSnoc(us, n);
      assert us[n].key in KeysOf(us);
      OfAbsent(us[..n], k);
    }
  }

  // ---- The table, and where the two agree ----

  function TableFold(us: seq<Update>): map<string, Row> {
    if us == [] then map[] else Upserted(TableFold(us[..|us| - 1]), us[|us| - 1])
  }

  /** The table holds for each key the fold over all of its updates. */
  lemma {:induction false} TableKeepsAll(us: seq<Update>, k: string)
    ensures k in TableFold(us) <==> Of(us, k) != []
    ensures Of(us, k) != [] ==> TableFold(us)[k] == RowFold(Of(us, k))
  {
    if us != [] {
      var front, last := us[..|us| - 1], us[|us| - 1];
      TableKeepsAll(front, k);
      if last.key == k {
        var mine := Of(front, k);
        assert (mine + [last])[..|mine|] == mine;
        assert (mine + [last])[|mine|] == last;
      }
    }
  }

  /** The sessions have the same values in the columns on which row and session can agree. */
  predicate SameColumns(a: Session, b: Session) {
    && a.key == b.key && Saturated(a.sessionId) == Saturated(b.sessionId) && a.inbound == b.inbound
    && OptInt(a.decisionId) == OptInt(b.decisionId) && OptInt(a.generation) == OptInt(b.generation)
    && a.texts == b.texts && Saturated(a.startedAt) == Saturated(b.startedAt) && OptInt(a.closedAt) == OptInt(b.closedAt)
    && SameCounters(a.sent, b.sent) && SameCounters(a.received, b.received)
    && Saturated(a.lastObserved) == Saturated(b.lastObserved)
  }

  predicate SameCounters(a: Counters, b: Counters) {
    a.bytes == b.bytes && a.datagrams == b.datagrams && OptInt(a.firstAt) == OptInt(b.firstAt)
  }

  lemma SameTexts(row: TextColumn -> Value, a: Texts, b: Texts)
    requires forall c :: row(c) == TextIn(b, c)
    ensures (forall c :: row(c) == TextIn(a, c)) <==> a == b
  {
    if forall c :: row(c) == TextIn(a, c) {
      forall c
        ensures c in a <==> c in b
        ensures c in a ==> a[c] == b[c]
      {
        assert TextIn(a, c) == TextIn(b, c);
      }
    }
  }

  lemma MatchesSameColumns(r: Row, a: Session, b: Session)
    requires Matches(r, b)
    ensures Matches(r, a) <==> SameColumns(a, b)
  {
    SameTexts(r.texts, a.texts, b.texts);
  }

  /**
    Whatever the interleaving of sessions and whatever was evicted: the stored session, which is the fold
    of the key's recent updates, agrees with the row, which is the fold of all of them, if and only if
    the two sets of updates fold to the same columns.
  */
  lemma StoreMatchesTableIff(us: seq<Update>, k: string)
    requires k in Recent(us) && AlwaysFits(Of(us, k)) && LaterUnmixed(Of(us, k))
    ensures Of(us, k) != [] && k in TableFold(us)
    ensures Matches(TableFold(us)[k], SessionFold(Recent(us)[k]))
       <==> SameColumns(SessionFold(Recent(us)[k]), SessionFold(Of(us, k)))
  {
    RecentIsSuffix(us, k);
    TableKeepsAll(us, k);
    FoldsAgreeIff(Of(us, k));
    MatchesSameColumns(TableFold(us)[k], SessionFold(Recent(us)[k]), SessionFold(Of(us, k)));
  }

  /** So they agree as long as nothing is evicted. */
  lemma StoreMatchesTable(us: seq<Update>, k: string)
    requires |KeysOf(us)| <= SESSION_LIMIT && k in KeysOf(us) && AlwaysFits(Of(us, k)) && LaterUnmixed(Of(us, k))
    ensures k in Recent(us) && k in TableFold(us) && Matches(TableFold(us)[k], SessionFold(Recent(us)[k]))
  {
    FewKeysStay(us);
    StoreMatchesTableIff(us, k);
  }

  lemma {:induction false} FoldStarts(us: seq<Update>)
    requires us != []
    ensures SessionFold(us).startedAt == us[0].at
  {
    var n := |us| - 1;
    if n > 0 {
      FoldStarts(us[..n]);
    }
  }

  /** And they disagree once a session has been evicted and came back at another time. */
  lemma EvictedSessionDiffers(us: seq<Update>, k: string)
    requires k in Recent(us) && AlwaysFits(Of(us, k)) && LaterUnmixed(Of(us, k)) && Of(us, k) != []
    requires Saturated(Recent(us)[k][0].at) != Saturated(Of(us, k)[0].at)
    ensures k in TableFold(us) && !Matches(TableFold(us)[k], SessionFold(Recent(us)[k]))
  {
    StoreMatchesTableIff(us, k);
    FoldStarts(Recent(us)[k]);
    FoldStarts(Of(us, k));
  }
}
