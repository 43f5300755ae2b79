/** Tables whose rows belong to something larger: one projected row per group, and
    one row per group that counts. */
module Grouping {
  import opened Ranking
  import opened Schema

  type Rows<V> = map<EventId, V>

  function InsertOrIgnore<K, V>(table: map<K, V>, key: K, row: V): map<K, V> {
    if key in table then table else table[key := row]
  }

  /** `SELECT DISTINCT key`. */
  function GroupKeys<V>(table: Rows<V>, key: V -> string): set<string> {
    set id | id in table :: key(table[id])
  }

  function Group<V>(table: Rows<V>, key: V -> string, k: string): Rows<V> {
    map id | id in table && key(table[id]) == k :: table[id]
  }

  ghost predicate Projects<V(!new), R>(project: Rows<V> --> R) {
    forall g: Rows<V> | g.Keys != {} :: project.requires(g)
  }

  /** Recomputes one group's row; a group without rows leaves none. */
  function Refresh<V(!new), R>(rows: map<string, R>, table: Rows<V>, key: V -> string, project: Rows<V> --> R,
                               k: string)
    : map<string, R>
    requires Projects(project)
  {
    var g := Group(table, key, k);
    if g.Keys == {} then rows else rows[k := project(g)]
  }

  /** The projection of a whole table. */
  function ProjectAll<V(!new), R>(table: Rows<V>, key: V -> string, project: Rows<V> --> R): map<string, R>
    requires Projects(project)
  {
    map k | k in GroupKeys(table, key) && Group(table, key, k).Keys != {} :: project(Group(table, key, k))
  }

  lemma GroupHolds<V>(table: Rows<V>, key: V -> string, k: string)
    ensures Group(table, key, k).Keys != {} <==> k in GroupKeys(table, key)
  {
    if k in GroupKeys(table, key) {
      var id :| id in table && key(table[id]) == k;
      assert id in Group(table, key, k);
    } else {
      forall id | id in table ensures id !in Group(table, key, k).Keys {
        assert key(table[id]) in GroupKeys(table, key);
      }
    }
  }

  lemma EveryGroupIsProjected<V(!new), R>(table: Rows<V>, key: V -> string, project: Rows<V> --> R)
    requires Projects(project)
    ensures ProjectAll(table, key, project).Keys == GroupKeys(table, key)
  {
    forall k | k in GroupKeys(table, key) ensures Group(table, key, k).Keys != {} {
      GroupHolds(table, key, k);
    }
  }

  lemma OtherGroups<V>(table: Rows<V>, key: V -> string, id: EventId, row: V, k: string)
    requires id !in table && k != key(row)
    ensures Group(table[id := row], key, k) == Group(table, key, k)
  {
  }

  lemma GrownKeys<V>(table: Rows<V>, key: V -> string, id: EventId, row: V)
    requires id !in table
    ensures GroupKeys(table[id := row], key) == GroupKeys(table, key) + {key(row)}
  {
    var grown := table[id := row];
    assert grown[id] == row;
    forall o | o in table ensures key(table[o]) in GroupKeys(grown, key) { assert grown[o] == table[o]; }
  }

  lemma ProjectedAt<V(!new), R>(table: Rows<V>, key: V -> string, project: Rows<V> --> R, k: string)
    requires Projects(project) && k in GroupKeys(table, key)
    ensures Group(table, key, k).Keys != {}
    ensures k in ProjectAll(table, key, project) && ProjectAll(table, key, project)[k] == project(Group(table, key, k))
  {
    GroupHolds(table, key, k);
  }

  lemma RefreshedKeys<V(!new), R>(rows: map<string, R>, table: Rows<V>, key: V -> string, project: Rows<V> --> R,
                                  k: string)
    requires Projects(project) && k in GroupKeys(table, key)
    ensures k in ProjectAll(table, key, project)
    ensures Refresh(rows, table, key, project, k) == rows[k := ProjectAll(table, key, project)[k]]
  {
    ProjectedAt(table, key, project, k);
  }

  /** Refreshing the one group a new row joins refreshes the projection. */
  lemma NewRow<V(!new), R>(table: Rows<V>, key: V -> string, project: Rows<V> --> R, id: EventId, row: V)
    requires Projects(project) && id !in table
    ensures Refresh(ProjectAll(table, key, project), table[id := row], key, project, key(row))
         == ProjectAll(table[id := row], key, project)
  {
    var grown := table[id := row];
    var before, after := ProjectAll(table, key, project), ProjectAll(grown, key, project);
    GrownKeys(table, key, id, row);
    EveryGroupIsProjected(table, key, project);
    EveryGroupIsProjected(grown, key, project);
    RefreshedKeys(before, grown, key, project, key(row));
    forall k | k in before && k != key(row) ensures after[k] == before[k] {
      OtherGroups(table, key, id, row, k);
      ProjectedAt(table, key, project, k);
      ProjectedAt(grown, key, project, k);
    }
    SameTable(before[key(row) := after[key(row)]], after);
  }

  /** Whether every row but that of group `k` is the one its group projects to. */
  ghost predicate CurrentBut<V(!new), R>(rows: map<string, R>, table: Rows<V>, key: V -> string,
                                         project: Rows<V> --> R, k: string)
    requires Projects(project)
  {
    && rows.Keys <= GroupKeys(table, key)
    && forall j | j in GroupKeys(table, key) && j != k ::
         j in rows && j in ProjectAll(table, key, project) && rows[j] == ProjectAll(table, key, project)[j]
  }

  /** Refreshing the one group that may be out of date leaves none. */
  lemma RefreshRestores<V(!new), R>(rows: map<string, R>, table: Rows<V>, key: V -> string, project: Rows<V> --> R,
                                    k: string)
    requires Projects(project) && CurrentBut(rows, table, key, project, k)
    ensures Refresh(rows, table, key, project, k) == ProjectAll(table, key, project)
  {
    EveryGroupIsProjected(table, key, project);
    GroupHolds(table, key, k);
    if k in GroupKeys(table, key) { RefreshedKeys(rows, table, key, project, k); }
    SameTable(Refresh(rows, table, key, project, k), ProjectAll(table, key, project));
  }

  // ---- One row per group that counts ----

  function GroupStamps<V>(table: Rows<Marked<V>>, key: V -> string, stamp: V -> nat, k: string): Stamps {
    map id | id in table && key(table[id].row) == k :: stamp(table[id].row)
  }

  /** Whether an earlier row of the same group exists. */
  predicate Repeats<V>(table: Rows<Marked<V>>, key: V -> string, stamp: V -> nat, id: EventId)
    requires id in table
  {
    var stamps := GroupStamps(table, key, stamp, key(table[id].row));
    assert id in stamps;
    id != Oldest(stamps)
  }

  /** Recomputes the flags of one group. */
  function RefreshFlags<V>(table: Rows<Marked<V>>, key: V -> string, stamp: V -> nat, k: string): Rows<Marked<V>> {
    map id | id in table ::
      if key(table[id].row) == k then Marked(table[id].row, Repeats(table, key, stamp, id)) else table[id]
  }

  /** The flags of a whole table. */
  function Flagged<V>(table: Rows<Marked<V>>, key: V -> string, stamp: V -> nat): Rows<Marked<V>> {
    map id | id in table :: Marked(table[id].row, Repeats(table, key, stamp, id))
  }

  /** The table before anything is flagged. */
  function Unflagged<V>(rows: Rows<V>): Rows<Marked<V>> {
    map id | id in rows :: Marked(rows[id], false)
  }

  ghost predicate SameRows<V>(a: Rows<Marked<V>>, b: Rows<Marked<V>>) {
    a.Keys == b.Keys && forall id | id in a :: a[id].row == b[id].row
  }

  lemma StampsAgree<V>(a: Rows<Marked<V>>, b: Rows<Marked<V>>, key: V -> string, stamp: V -> nat, k: string)
    requires SameRows(a, b)
    ensures GroupStamps(a, key, stamp, k) == GroupStamps(b, key, stamp, k)
  {
  }

  lemma FlagAgrees<V>(a: Rows<Marked<V>>, b: Rows<Marked<V>>, key: V -> string, stamp: V -> nat, id: EventId)
    requires id in a && id in b && a[id].row == b[id].row
    requires GroupStamps(a, key, stamp, key(a[id].row)) == GroupStamps(b, key, stamp, key(a[id].row))
    ensures Flagged(a, key, stamp)[id] == Flagged(b, key, stamp)[id]
  {
  }

  lemma SameFlag<V>(a: Rows<Marked<V>>, b: Rows<Marked<V>>, key: V -> string, stamp: V -> nat, id: EventId)
    requires SameRows(a, b) && id in a
    ensures Flagged(a, key, stamp)[id] == Flagged(b, key, stamp)[id]
  {
    StampsAgree(a, b, key, stamp, key(a[id].row));
    FlagAgrees(a, b, key, stamp, id);
  }

  lemma SameTable<K, V>(a: map<K, V>, b: map<K, V>)
    requires a.Keys == b.Keys && forall k | k in a :: a[k] == b[k]
    ensures a == b
  {
  }

  /** Flags already set do not change which row counts. */
  lemma FlagsDoNotMatter<V>(a: Rows<Marked<V>>, b: Rows<Marked<V>>, key: V -> string, stamp: V -> nat)
    requires SameRows(a, b)
    ensures Flagged(a, key, stamp) == Flagged(b, key, stamp)
  {
    forall id | id in a ensures Flagged(a, key, stamp)[id] == Flagged(b, key, stamp)[id] {
      SameFlag(a, b, key, stamp, id);
    }
    SameTable(Flagged(a, key, stamp), Flagged(b, key, stamp));
  }

  lemma RefreshKeepsRows<V>(table: Rows<Marked<V>>, key: V -> string, stamp: V -> nat, k: string)
    ensures SameRows(RefreshFlags(table, key, stamp, k), table)
  {
  }

  lemma RefreshedFlag<V>(table: Rows<Marked<V>>, key: V -> string, stamp: V -> nat, k: string, id: EventId)
    requires id in table
    ensures RefreshFlags(table, key, stamp, k)[id]
         == if key(table[id].row) == k then Flagged(table, key, stamp)[id] else table[id]
  {
  }

  /** Refreshing the flags of the one group that may be out of date leaves none. */
  lemma FlagsRestored<V>(table: Rows<Marked<V>>, now: Rows<Marked<V>>, key: V -> string, stamp: V -> nat, k: string)
    requires SameRows(now, table)
    requires forall id | id in table && key(table[id].row) != k :: now[id] == Flagged(table, key, stamp)[id]
    ensures RefreshFlags(now, key, stamp, k) == Flagged(table, key, stamp)
  {
    forall id | id in table ensures RefreshFlags(now, key, stamp, k)[id] == Flagged(table, key, stamp)[id] {
      RefreshedFlag(now, key, stamp, k, id);
      SameFlag(now, table, key, stamp, id);
    }
    SameTable(RefreshFlags(now, key, stamp, k), Flagged(table, key, stamp));
  }

  lemma OtherStamps<V>(table: Rows<Marked<V>>, key: V -> string, stamp: V -> nat, id: EventId, row: V, k: string)
    requires id !in table && k != key(row)
    ensures GroupStamps(table[id := Marked(row, false)], key, stamp, k) == GroupStamps(table, key, stamp, k)
  {
  }

  /** Flagging the one group a new row joins flags the table. */
  lemma NewFlaggedRow<V>(table: Rows<Marked<V>>, key: V -> string, stamp: V -> nat, id: EventId, row: V)
    requires id !in table
    ensures RefreshFlags(Flagged(table, key, stamp)[id := Marked(row, false)], key, stamp, key(row))
         == Flagged(table[id := Marked(row, false)], key, stamp)
  {
    var grown := table[id := Marked(row, false)];
    var flagged := Flagged(table, key, stamp);
    var before := flagged[id := Marked(row, false)];
    var after := RefreshFlags(before, key, stamp, key(row));
    var goal := Flagged(grown, key, stamp);
    FlagsDoNotMatter(grown, before, key, stamp);
    forall o | o in grown ensures after[o] == goal[o] {
      RefreshedFlag(before, key, stamp, key(row), o);
      if key(grown[o].row) != key(row) {
        OtherStamps(table, key, stamp, id, row, key(grown[o].row));
        FlagAgrees(grown, table, key, stamp, o);
      }
    }
    assert after.Keys == goal.Keys;
  }

  lemma FlaggedKeepsRow<V>(rows: Rows<V>, key: V -> string, stamp: V -> nat, id: EventId)
    requires id in rows
    ensures id in Flagged(Unflagged(rows), key, stamp) && Flagged(Unflagged(rows), key, stamp)[id].row == rows[id]
  {
  }

  /** Whether `id` is the row of its group that counts. */
  ghost predicate Counts<V>(table: Rows<Marked<V>>, key: V -> string, stamp: V -> nat, id: EventId)
    requires id in table
  {
    forall o | o in table && key(table[o].row) == key(table[id].row) && o != id ::
      stamp(table[id].row) < stamp(table[o].row) || (stamp(table[id].row) == stamp(table[o].row) && id < o)
  }

  /** The flag is down on the earliest row of a group, in a tie on the one with the
      lowest id, and up on every other. */
  lemma FlagMeaning<V>(table: Rows<Marked<V>>, key: V -> string, stamp: V -> nat, id: EventId)
    requires id in table
    ensures Flagged(table, key, stamp)[id].isDuplicate <==> !Counts(table, key, stamp, id)
  {
    var stamps := GroupStamps(table, key, stamp, key(table[id].row));
    assert id in stamps;
    if id == Oldest(stamps) {
      forall o | o in table && key(table[o].row) == key(table[id].row) && o != id
        ensures stamp(table[id].row) < stamp(table[o].row) || (stamp(table[id].row) == stamp(table[o].row) && id < o)
      {
        assert o in stamps;
      }
    }
  }

  /** The same, read off the flagged table itself. */
  lemma FlagsSayWhichCounts<V>(table: Rows<Marked<V>>, key: V -> string, stamp: V -> nat, id: EventId)
    requires id in table
    ensures var flagged := Flagged(table, key, stamp);
            flagged[id].isDuplicate <==> !Counts(flagged, key, stamp, id)
  {
    FlagMeaning(table, key, stamp, id);
    SameCounts(table, Flagged(table, key, stamp), key, stamp, id);
  }

  lemma SameCounts<V>(a: Rows<Marked<V>>, b: Rows<Marked<V>>, key: V -> string, stamp: V -> nat, id: EventId)
    requires SameRows(a, b) && id in a
    ensures Counts(a, key, stamp, id) <==> Counts(b, key, stamp, id)
  {
  }

  /** Every group has exactly one row that is not flagged. */
  lemma OneRowCounts<V>(table: Rows<Marked<V>>, key: V -> string, stamp: V -> nat, some: EventId)
    returns (id: EventId)
    requires some in table
    ensures id in table && key(table[id].row) == key(table[some].row)
    ensures !Flagged(table, key, stamp)[id].isDuplicate
    ensures forall o | o in table && key(table[o].row) == key(table[some].row) && o != id ::
              Flagged(table, key, stamp)[o].isDuplicate
  {
    var stamps := GroupStamps(table, key, stamp, key(table[some].row));
    assert some in stamps;
    id := Oldest(stamps);
  }

  // ---- Sweeping every group ----

  lemma OneMoreProjected<V(!new), R>(rows: map<string, R>, table: Rows<V>, key: V -> string, project: Rows<V> --> R,
                                     done: set<string>, k: string)
    requires Projects(project) && rows.Keys <= GroupKeys(table, key) && k in GroupKeys(table, key)
    requires forall d | d in done :: d in rows && d in ProjectAll(table, key, project)
                                  && rows[d] == ProjectAll(table, key, project)[d]
    ensures var after := Refresh(rows, table, key, project, k);
            && after.Keys <= GroupKeys(table, key)
            && forall d | d in done + {k} :: d in after && d in ProjectAll(table, key, project)
                                          && after[d] == ProjectAll(table, key, project)[d]
  {
    GroupHolds(table, key, k);
  }

  /** Refreshes every group in turn, over whatever rows were there. */
  method Sweep<V(!new), R>(rows: map<string, R>, table: Rows<V>, key: V -> string, project: Rows<V> --> R)
    returns (swept: map<string, R>, count: nat)
    requires Projects(project) && rows.Keys <= GroupKeys(table, key)
    ensures swept == ProjectAll(table, key, project) && count == |swept|
  {
    var keys := GroupKeys(table, key);
    var todo := keys;
    swept, count := rows, 0;
    while todo != {}
      invariant todo <= keys && count == |keys| - |todo| && swept.Keys <= keys
      invariant forall d | d in keys - todo :: d in swept && d in ProjectAll(table, key, project)
                                            && swept[d] == ProjectAll(table, key, project)[d]
    {
      var k :| k in todo;
      OneMoreProjected(swept, table, key, project, keys - todo, k);
      assert keys - (todo - {k}) == (keys - todo) + {k};
      todo := todo - {k};
      swept := Refresh(swept, table, key, project, k);
      count := count + 1;
    }
    EveryGroupIsProjected(table, key, project);
    assert keys - todo == keys;
    SameTable(swept, ProjectAll(table, key, project));
    assert swept.Keys == keys && |swept.Keys| == |swept|;
  }

  /** `SELECT DISTINCT key` over a flagged table. */
  method RowKeys<V>(table: Rows<Marked<V>>, key: V -> string) returns (keys: set<string>)
    ensures forall id | id in table :: key(table[id].row) in keys
  {
    keys := set id | id in table :: key(table[id].row);
  }

  /** The table once the groups in `done` have been refreshed. */
  function FlagsOver<V>(table: Rows<Marked<V>>, key: V -> string, stamp: V -> nat, done: set<string>): Rows<Marked<V>> {
    map id | id in table ::
      if key(table[id].row) in done then Marked(table[id].row, Repeats(table, key, stamp, id)) else table[id]
  }

  lemma FlagsOverRows<V>(table: Rows<Marked<V>>, key: V -> string, stamp: V -> nat, done: set<string>)
    ensures SameRows(FlagsOver(table, key, stamp, done), table)
  {
  }

  lemma OneFlag<V>(table: Rows<Marked<V>>, now: Rows<Marked<V>>, key: V -> string, stamp: V -> nat, k: string,
                   id: EventId)
    requires SameRows(now, table) && id in table
    ensures RefreshFlags(now, key, stamp, k)[id]
         == if key(table[id].row) == k then Flagged(table, key, stamp)[id] else now[id]
  {
    RefreshedFlag(now, key, stamp, k, id);
    SameFlag(now, table, key, stamp, id);
  }

  lemma OneMoreFlagged<V>(table: Rows<Marked<V>>, key: V -> string, stamp: V -> nat, done: set<string>, k: string)
    ensures RefreshFlags(FlagsOver(table, key, stamp, done), key, stamp, k) == FlagsOver(table, key, stamp, done + {k})
  {
    var now, goal := FlagsOver(table, key, stamp, done), FlagsOver(table, key, stamp, done + {k});
    FlagsOverRows(table, key, stamp, done);
    forall id | id in table ensures RefreshFlags(now, key, stamp, k)[id] == goal[id] {
      OneFlag(table, now, key, stamp, k, id);
    }
    SameTable(RefreshFlags(now, key, stamp, k), goal);
  }

  lemma NoFlagsYet<V>(table: Rows<Marked<V>>, key: V -> string, stamp: V -> nat)
    ensures FlagsOver(table, key, stamp, {}) == table
  {
  }

  lemma AllFlags<V>(table: Rows<Marked<V>>, key: V -> string, stamp: V -> nat, done: set<string>)
    requires forall id | id in table :: key(table[id].row) in done
    ensures FlagsOver(table, key, stamp, done) == Flagged(table, key, stamp)
  {
  }

  /** Recomputes the flags of every group in turn. */
  method SweepFlags<V>(table: Rows<Marked<V>>, key: V -> string, stamp: V -> nat) returns (swept: Rows<Marked<V>>)
    ensures swept == Flagged(table, key, stamp)
  {
    NoFlagsYet(table, key, stamp);
    var todo := RowKeys(table, key);
    ghost var keys, done: set<string> := todo, {};
    swept := table;
    while todo != {}
      invariant done + todo == keys && swept == FlagsOver(table, key, stamp, done)
      decreases todo
    {
      var k :| k in todo;
      OneMoreFlagged(table, key, stamp, done, k);
      swept := RefreshFlags(swept, key, stamp, k);
      todo, done := todo - {k}, done + {k};
    }
    AllFlags(table, key, stamp, done);
  }
}
