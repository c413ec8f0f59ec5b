/** Which sources an index shows, and exactly when a sync keeps showing one. */
module Coverage {
  import opened Lists
  import opened Text
  import opened Source
  import opened Indexes
  import opened IndexReads
  import opened Syncing
  import opened SyncRuns
  import opened Restart
  import GithubOrg

  // ----- Which sources an index shows -----

  /** The index contains a member contributed by source `n`. */
  ghost predicate Covers(idx: Index, n: string) {
    exists t, k :: idx.Has(t, k) && n in idx.At(t, k).sources
  }

  ghost predicate Shows(idx: Option<Index>, n: string) {
    idx.Some? && Covers(idx.value, n)
  }

  /** Some member contributed by the source is not excluded. */
  ghost predicate Offers(cfg: Config, idx: Index, n: string) {
    exists t, k :: idx.Has(t, k) && n in idx.At(t, k).sources && k !in cfg.exclude
  }

  ghost predicate FreeOfExcluded(cfg: Config, idx: Index) {
    forall t, k :: idx.Has(t, k) ==> k !in cfg.exclude
  }

  /** A merge covers exactly the configured sources with a row that gets through. */
  lemma MergeCovers(cfg: Config, held: Rowsets, order: seq<string>, n: string)
    requires Schedule(cfg, order) && Hygienic(cfg, held)
    ensures Covers(Merged(cfg, held, order), n) <==> n in cfg.sources && Alive(cfg, HeldOf(held, n))
  {
    if n in cfg.sources {
      ConfiguredCovers(cfg, held, order, n);
    } else {
      UnknownNotCovered(cfg, held, order, n);
    }
  }

  lemma ConfiguredCovers(cfg: Config, held: Rowsets, order: seq<string>, n: string)
    requires Schedule(cfg, order) && Hygienic(cfg, held) && n in cfg.sources
    ensures Covers(Merged(cfg, held, order), n) <==> Alive(cfg, HeldOf(held, n))
  {
    var ms, c := Surviving(cfg.exclude, Gathered(held, order)), Contribution(cfg, held, n);
    AliveBuilt(cfg, held, n);
    forall t, k ensures Built(c).Has(t, k) <==> Built(ms).Has(t, k) && n in Built(ms).At(t, k).sources {
      ContributionFromMerge(cfg, held, order, n, t, k);
      NothingAt(ms, t, k);
      SortedMember(SourcesAt(ms, t, k), n);
    }
  }

  lemma UnknownNotCovered(cfg: Config, held: Rowsets, order: seq<string>, n: string)
    requires Schedule(cfg, order) && Hygienic(cfg, held) && n !in cfg.sources
    ensures !Covers(Merged(cfg, held, order), n)
  {
    var ms := Surviving(cfg.exclude, Gathered(held, order));
    forall m | m in ms ensures m.source in cfg.sources {
      MergedIsUnion(cfg, held, order, m);
      var x :| x in cfg.sources && m in Contribution(cfg, held, x);
      ContributionElems(cfg, held, x, m);
    }
    forall t, k | Built(ms).Has(t, k) ensures n !in Built(ms).At(t, k).sources {
      SortedMember(SourcesAt(ms, t, k), n);
    }
  }

  /** A merge is valid and free of the handles its configuration excludes. */
  lemma MergeClean(cfg: Config, held: Rowsets, order: seq<string>)
    ensures Valid(Merged(cfg, held, order)) && FreeOfExcluded(cfg, Merged(cfg, held, order))
  {
    var ms := Surviving(cfg.exclude, Gathered(held, order));
    BuiltValid(ms);
    forall t, k | Built(ms).Has(t, k) ensures k !in cfg.exclude {
      MemberExists(ms, t, k);
      var m :| m in ms && m.At(t, k);
      SurvivingElems(cfg.exclude, Gathered(held, order), m);
    }
  }

  /** `rows` are the rows a source has in an index. */
  ghost predicate RowsOf(idx: Index, n: string, rows: seq<Membership>) {
    forall m :: m in rows <==> RowOf(idx, m) && m.source == n
  }

  lemma RowsAreMembers(cfg: Config, idx: Index, n: string, rows: seq<Membership>)
    requires Valid(idx) && RowsOf(idx, n, rows)
    ensures FromSource(n, rows)
    ensures rows != [] ==> Covers(idx, n)
    ensures Alive(cfg, rows) ==> Offers(cfg, idx, n)
  {
    if rows != [] { assert rows[0] in rows && idx.Has(rows[0].team, rows[0].Key()); }
    if m :| m in rows && m.Usable() && m.Key() !in cfg.exclude {
      assert idx.Has(m.team, m.Key()) && n in idx.At(m.team, m.Key()).sources;
    }
  }

  lemma MemberHasRow(idx: Index, n: string, rows: seq<Membership>, t: string, k: string)
    requires Valid(idx) && RowsOf(idx, n, rows)
    requires idx.Has(t, k) && n in idx.At(t, k).sources
    ensures exists m :: m in rows && m.Usable() && m.Key() == k
  {
    var x := idx.At(t, k);
    assert ValidMember(t, k, x);
    var row := Membership(x.handle, t, n, if n == GITHUB_ORG && x.orgs != [] then x.orgs[0] else "", x.name);
    assert RowOf(idx, row) && row in rows;
  }

  lemma MembersAreRows(cfg: Config, idx: Index, n: string, rows: seq<Membership>)
    requires Valid(idx) && RowsOf(idx, n, rows)
    ensures Covers(idx, n) ==> rows != []
    ensures Offers(cfg, idx, n) ==> Alive(cfg, rows)
  {
    if t, k :| idx.Has(t, k) && n in idx.At(t, k).sources {
      MemberHasRow(idx, n, rows, t, k);
    }
    if t, k :| idx.Has(t, k) && n in idx.At(t, k).sources && k !in cfg.exclude {
      MemberHasRow(idx, n, rows, t, k);
      var m :| m in rows && m.Usable() && m.Key() == k;
    }
  }

  lemma RestoredRows(idx: Index, n: string)
    requires Valid(idx)
    ensures RowsOf(idx, n, HeldOf(BySource(Flatten(idx)), n))
  {
    forall m ensures m in HeldOf(BySource(Flatten(idx)), n) <==> RowOf(idx, m) && m.source == n {
      RowsFromElems(Flatten(idx), n, m);
      FlattenElems(idx, m);
    }
  }

  /** What restoring from a valid index, perhaps of another configuration, leaves a source with. */
  lemma RestoredSource(cfg: Config, idx: Index, n: string)
    requires Valid(idx)
    ensures var rows := HeldOf(BySource(Flatten(idx)), n);
            && FromSource(n, rows)
            && (rows != [] <==> Covers(idx, n))
            && (Alive(cfg, rows) <==> Offers(cfg, idx, n))
  {
    RestoredRows(idx, n);
    RowsAreMembers(cfg, idx, n, HeldOf(BySource(Flatten(idx)), n));
    MembersAreRows(cfg, idx, n, HeldOf(BySource(Flatten(idx)), n));
  }

  lemma NamedHasRows(rows: seq<Membership>, n: string)
    ensures n in BySource(rows) <==> HeldOf(BySource(rows), n) != []
  {
    if n in BySource(rows) {
      var m :| m in rows && m.source == n;
      RowsFromElems(rows, n, m);
    }
  }

  /** The same when it is restored over rows from elsewhere. */
  lemma RestoredOver(cfg: Config, under: Rowsets, idx: Index, n: string)
    requires Valid(idx)
    ensures var rows := HeldOf(under + BySource(Flatten(idx)), n);
            if Covers(idx, n) then rows != [] && (Alive(cfg, rows) <==> Offers(cfg, idx, n))
            else rows == HeldOf(under, n)
  {
    RestoredSource(cfg, idx, n);
    NamedHasRows(Flatten(idx), n);
  }

  // ----- Whether a sync keeps showing a source -----

  /** The rows a source stands on after a sync. */
  ghost function RowsAfter(cfg: Config, s: State, t: Tick, n: string): seq<Membership> {
    HeldOf(NextHeld(cfg, s.held, t.fetches), n)
  }

  lemma RowsAfterIs(cfg: Config, s: State, t: Tick, n: string)
    requires TickOk(cfg, t) && n in cfg.sources
    ensures RowsAfter(cfg, s, t, n) ==
            if n in Accepted(cfg, t.fetches) then t.fetches[n].outcome.rows else HeldOf(s.held, n)
  {
    NextHeldOf(cfg, s.held, t.fetches, n);
    assert n in Accepted(cfg, t.fetches) <==> Accepts(cfg, n, t.fetches[n].outcome);
  }

  /** Accepted fetches carry their source's own rows. */
  ghost predicate HygienicFetches(cfg: Config, fetches: Fetches) {
    forall n :: n in Accepted(cfg, fetches) ==> FromSource(n, fetches[n].outcome.rows)
  }

  /** Whatever a fetch returns are the source's own rows. */
  ghost predicate OwnRows(fetches: Fetches) {
    forall n :: n in fetches && fetches[n].outcome.Rows? ==> FromSource(n, fetches[n].outcome.rows)
  }

  lemma OwnRowsAreHygienic(cfg: Config, fetches: Fetches)
    requires OwnRows(fetches)
    ensures HygienicFetches(cfg, fetches)
  {}

  lemma StaysHygienic(cfg: Config, s: State, t: Tick)
    requires TickOk(cfg, t) && Hygienic(cfg, s.held) && HygienicFetches(cfg, t.fetches)
    ensures Hygienic(cfg, TickNext(cfg, s, t).held)
  {
    TickServes(cfg, s, t);
    forall n | n in cfg.sources ensures FromSource(n, HeldOf(TickNext(cfg, s, t).held, n)) {
      RowsAfterIs(cfg, s, t, n);
    }
  }

  /** The sync leaves what is served alone: some source is starved, or nothing at all would be served. */
  ghost predicate Withholds(cfg: Config, s: State, t: Tick) {
    var held := NextHeld(cfg, s.held, t.fetches);
    s.served.Some? && (Starved(cfg, held, t.fetches) != {} || Merged(cfg, held, t.order).teams == map[])
  }

  lemma WithheldServed(cfg: Config, s: State, t: Tick)
    requires TickOk(cfg, t)
    ensures TickNext(cfg, s, t).served ==
            if Withholds(cfg, s, t) then s.served else Some(Merged(cfg, NextHeld(cfg, s.held, t.fetches), t.order))
  {
    TickServes(cfg, s, t);
  }

  /** What is served after a sync shows a source when what was left alone did, or the rows merged have one of it. */
  lemma SyncShowsIff(cfg: Config, s: State, t: Tick, n: string)
    requires TickOk(cfg, t) && Hygienic(cfg, s.held) && HygienicFetches(cfg, t.fetches)
    ensures Shows(TickNext(cfg, s, t).served, n) <==>
            if Withholds(cfg, s, t) then Shows(s.served, n)
            else n in cfg.sources && Alive(cfg, RowsAfter(cfg, s, t, n))
  {
    StaysHygienic(cfg, s, t);
    TickServes(cfg, s, t);
    WithheldServed(cfg, s, t);
    MergeCovers(cfg, NextHeld(cfg, s.held, t.fetches), t.order, n);
  }

  /** And it is free of excluded handles unless what was left alone is not. */
  lemma SyncExcludesIff(cfg: Config, s: State, t: Tick)
    requires TickOk(cfg, t)
    ensures var served := TickNext(cfg, s, t).served;
            served.Some? &&
            (FreeOfExcluded(cfg, served.value) <==> Withholds(cfg, s, t) ==> FreeOfExcluded(cfg, s.served.value))
  {
    WithheldServed(cfg, s, t);
    MergeClean(cfg, NextHeld(cfg, s.held, t.fetches), t.order);
  }

  /**
   "A transient outage never drops a team" - a sync keeps serving a source exactly when it leaves alone
   what is served, or the rows it accepted from the source, or else fell back on, have one that gets through.
   */
  lemma SyncKeepsIff(cfg: Config, s: State, t: Tick, n: string)
    requires TickOk(cfg, t) && Hygienic(cfg, s.held) && HygienicFetches(cfg, t.fetches)
    requires n in cfg.sources && Shows(s.served, n)
    ensures var held := NextHeld(cfg, s.held, t.fetches);
            Shows(TickNext(cfg, s, t).served, n) <==>
            || Starved(cfg, held, t.fetches) != {}
            || Merged(cfg, held, t.order).teams == map[]
            || Alive(cfg, if n in Accepted(cfg, t.fetches) then t.fetches[n].outcome.rows else HeldOf(s.held, n))
  {
    SyncShowsIff(cfg, s, t, n);
    RowsAfterIs(cfg, s, t, n);
  }

  /** A merge has no team exactly when no source has a row that gets through. */
  lemma NothingMergedIff(cfg: Config, held: Rowsets, order: seq<string>)
    requires Schedule(cfg, order) && Hygienic(cfg, held)
    ensures Merged(cfg, held, order).teams == map[] <==> forall n :: n in cfg.sources ==> !Alive(cfg, HeldOf(held, n))
  {
    var idx := Merged(cfg, held, order);
    if n :| n in cfg.sources && Alive(cfg, HeldOf(held, n)) {
      MergeCovers(cfg, held, order, n);
      var t, k :| idx.Has(t, k) && n in idx.At(t, k).sources;
      assert t in idx.teams;
    }
    if idx.teams != map[] {
      SomeSourceMerged(cfg, held, order);
    }
  }

  lemma SomeSourceMerged(cfg: Config, held: Rowsets, order: seq<string>)
    requires Schedule(cfg, order) && Merged(cfg, held, order).teams != map[]
    ensures exists n :: n in cfg.sources && Alive(cfg, HeldOf(held, n))
  {
    var idx := Merged(cfg, held, order);
    var rows := Surviving(cfg.exclude, Gathered(held, order));
    BuiltValid(rows);
    var t :| t in idx.teams.Keys;
    assert idx.teams[t].members != map[];
    var k :| k in idx.teams[t].members.Keys;
    MemberExists(rows, t, k);
    var m :| m in rows && m.At(t, k);
    MergedIsUnion(cfg, held, order, m);
    var n :| n in cfg.sources && m in Contribution(cfg, held, n);
    ContributionElems(cfg, held, n, m);
  }

  // ----- A source whose outage is an empty success -----

  /**
   Let a served source's fetch succeed without rows while every other source has rows that get through.
   The source stays served exactly when its floor is enabled, or there is no other source. Otherwise
   nothing is starved, and a sync that can save puts the index without it on disk as well.
   */
  lemma EmptySuccessKeepsIff(cfg: Config, s: State, t: Tick, n: string)
    requires TickOk(cfg, t) && Hygienic(cfg, s.held) && HygienicFetches(cfg, t.fetches)
    requires n in cfg.sources && Shows(s.served, n) && Alive(cfg, HeldOf(s.held, n))
    requires t.fetches[n].outcome == Rows([])
    requires forall m :: m in cfg.sources && m != n ==> Alive(cfg, RowsAfter(cfg, s, t, m))
    ensures var s', others := TickNext(cfg, s, t), exists m :: m in cfg.sources && m != n;
            && (Shows(s'.served, n) <==> PositiveFloor(FloorOf(cfg, n)) || !others)
            && (!Shows(s'.served, n) ==>
                  && Starved(cfg, s'.held, t.fetches) == {}
                  && (t.saved ==> s'.disk == s'.served))
  {
    var held := NextHeld(cfg, s.held, t.fetches);
    RowsAfterIs(cfg, s, t, n);
    EmptyFetch(cfg, t, n);
    SyncKeepsIff(cfg, s, t, n);
    StaysHygienic(cfg, s, t);
    TickServes(cfg, s, t);
    NothingMergedIff(cfg, held, t.order);
    NoneStarved(cfg, s, t, n);
    assert forall m :: m in cfg.sources && m != n ==> Alive(cfg, HeldOf(held, m));
  }

  lemma EmptyFetch(cfg: Config, t: Tick, n: string)
    requires TickOk(cfg, t) && n in cfg.sources && t.fetches[n].outcome == Rows([])
    ensures n in Accepted(cfg, t.fetches) <==> !PositiveFloor(FloorOf(cfg, n))
    ensures !Alive(cfg, [])
  {
    assert TeamNames([]) == {};
    assert n in Accepted(cfg, t.fetches) <==> Accepts(cfg, n, t.fetches[n].outcome);
  }

  lemma NoneStarved(cfg: Config, s: State, t: Tick, n: string)
    requires TickOk(cfg, t) && n in cfg.sources
    requires n in Accepted(cfg, t.fetches) || HeldOf(s.held, n) != []
    requires forall m :: m in cfg.sources && m != n ==> Alive(cfg, RowsAfter(cfg, s, t, m))
    ensures Starved(cfg, NextHeld(cfg, s.held, t.fetches), t.fetches) == {}
  {
    var held := NextHeld(cfg, s.held, t.fetches);
    forall m | m in cfg.sources ensures m !in Starved(cfg, held, t.fetches) {
      RowsAfterIs(cfg, s, t, m);
      if m != n { assert Alive(cfg, RowsAfter(cfg, s, t, m)); }
    }
  }

  /** A total GitHub outage is such a success: whether it drops the source is decided by its floor. */
  lemma GithubOutageKeepsIff(cfg: Config, s: State, t: Tick,
                             ups: map<string, GithubOrg.Upstream>, orgTeams: map<string, seq<string>>)
    requires TickOk(cfg, t) && Hygienic(cfg, s.held) && HygienicFetches(cfg, t.fetches)
    requires GITHUB_ORG in cfg.sources && Shows(s.served, GITHUB_ORG) && Alive(cfg, HeldOf(s.held, GITHUB_ORG))
    requires orgTeams.Keys <= ups.Keys && forall org :: org in orgTeams ==> !GithubOrg.Complete(ups[org])
    requires t.fetches[GITHUB_ORG].outcome == Rows(GithubOrg.FetchedRows(ups, orgTeams))
    requires forall m :: m in cfg.sources && m != GITHUB_ORG ==> Alive(cfg, RowsAfter(cfg, s, t, m))
    ensures var s', others := TickNext(cfg, s, t), exists m :: m in cfg.sources && m != GITHUB_ORG;
            && (Shows(s'.served, GITHUB_ORG) <==> PositiveFloor(FloorOf(cfg, GITHUB_ORG)) || !others)
            && (!Shows(s'.served, GITHUB_ORG) ==>
                  && Starved(cfg, s'.held, t.fetches) == {}
                  && (t.saved ==> s'.disk == s'.served))
  {
    GithubOrg.TotalOutageIsEmptySuccess(ups, orgTeams);
    EmptySuccessKeepsIff(cfg, s, t, GITHUB_ORG);
  }
}
