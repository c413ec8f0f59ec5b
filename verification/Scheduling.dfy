/** When the order in which sources finish can be seen in what is served. */
module Scheduling {
  import opened Lists
  import opened Text
  import opened Source
  import opened Indexes
  import opened Syncing
  import opened Restart
  import SyncRuns

  /** What source `n` says about member `k` of team `t`. */
  ghost function Says(cfg: Config, held: Rowsets, n: string, t: string, k: string): seq<Membership> {
    Group(Contribution(cfg, held, n), t, k)
  }

  /** What all sources together say, in the order they finished. */
  ghost function Said(cfg: Config, held: Rowsets, order: seq<string>, t: string, k: string): seq<Membership> {
    Group(Surviving(cfg.exclude, Gathered(held, order)), t, k)
  }

  lemma {:induction false} SurvivingAppend(exclude: set<string>, a: seq<Membership>, b: seq<Membership>)
    ensures Surviving(exclude, a + b) == Surviving(exclude, a) + Surviving(exclude, b)
  {
    if b == [] {
      assert a + b == a;
    } else {
      var all, front := a + b, b[..|b| - 1];
      assert all[..|all| - 1] == a + front;
      SurvivingAppend(exclude, a, front);
    }
  }

  lemma SaidFirst(cfg: Config, held: Rowsets, n: string, rest: seq<string>, t: string, k: string)
    ensures Said(cfg, held, [n] + rest, t, k) == Says(cfg, held, n, t, k) + Said(cfg, held, rest, t, k)
  {
    FlatMapAppend([n], rest, RowsHeld(held));
    assert [n][..0] == [];
    assert FlatMap([n], RowsHeld(held)) == HeldOf(held, n);
    SurvivingAppend(cfg.exclude, HeldOf(held, n), Gathered(held, rest));
    GroupAppend(Contribution(cfg, held, n), Surviving(cfg.exclude, Gathered(held, rest)), t, k);
  }

  /** The first speaker decides the handle, the first with a name the name. */
  lemma {:induction false} SaidBySomeone(cfg: Config, held: Rowsets, order: seq<string>, t: string, k: string)
    ensures Said(cfg, held, order, t, k) != [] ==>
              exists n :: n in order && Says(cfg, held, n, t, k) != []
                && FirstHandle(Said(cfg, held, order, t, k)) == FirstHandle(Says(cfg, held, n, t, k))
    ensures FirstName(Said(cfg, held, order, t, k)) != "" ==>
              exists n :: n in order && FirstName(Says(cfg, held, n, t, k)) == FirstName(Said(cfg, held, order, t, k))
    ensures FirstName(Said(cfg, held, order, t, k)) == "" ==>
              forall n :: n in order ==> FirstName(Says(cfg, held, n, t, k)) == ""
  {
    if order == [] {
    } else {
      var n, rest := order[0], order[1..];
      assert order == [n] + rest;
      SaidFirst(cfg, held, n, rest, t, k);
      SaidBySomeone(cfg, held, rest, t, k);
      FirstNameAppend(Says(cfg, held, n, t, k), Said(cfg, held, rest, t, k));
    }
  }

  /** The sources that know the member agree on its casing, and those that name it on its name. */
  ghost predicate AgreeOn(cfg: Config, held: Rowsets, n: string, n': string, t: string, k: string) {
    var g, g' := Says(cfg, held, n, t, k), Says(cfg, held, n', t, k);
    && (g != [] && g' != [] ==> FirstHandle(g) == FirstHandle(g'))
    && (FirstName(g) != "" && FirstName(g') != "" ==> FirstName(g) == FirstName(g'))
  }

  ghost predicate Agreeing(cfg: Config, held: Rowsets) {
    forall n, n', t, k :: n in cfg.sources && n' in cfg.sources ==> AgreeOn(cfg, held, n, n', t, k)
  }

  ghost predicate OrderInvisible(cfg: Config, held: Rowsets) {
    forall order, order' {:trigger Schedule(cfg, order), Schedule(cfg, order')} ::
      Schedule(cfg, order) && Schedule(cfg, order') ==> Merged(cfg, held, order) == Merged(cfg, held, order')
  }

  lemma ScheduleElems(cfg: Config, order: seq<string>, n: string)
    requires Schedule(cfg, order)
    ensures n in order <==> n in cfg.sources
  {
    assert n in order <==> n in Elems(order);
    assert n in cfg.sources <==> n in Elems(cfg.sources);
  }

  lemma SameSaid(cfg: Config, held: Rowsets, order: seq<string>, order': seq<string>, t: string, k: string)
    requires Schedule(cfg, order) && Schedule(cfg, order') && Agreeing(cfg, held)
    requires Said(cfg, held, order, t, k) != [] && Said(cfg, held, order', t, k) != []
    ensures FirstHandle(Said(cfg, held, order, t, k)) == FirstHandle(Said(cfg, held, order', t, k))
    ensures FirstName(Said(cfg, held, order, t, k)) == FirstName(Said(cfg, held, order', t, k))
  {
    SaidBySomeone(cfg, held, order, t, k);
    SaidBySomeone(cfg, held, order', t, k);
    forall n { ScheduleElems(cfg, order, n); }
    forall n { ScheduleElems(cfg, order', n); }
    var n :| n in order && Says(cfg, held, n, t, k) != []
             && FirstHandle(Said(cfg, held, order, t, k)) == FirstHandle(Says(cfg, held, n, t, k));
    var n' :| n' in order' && Says(cfg, held, n', t, k) != []
              && FirstHandle(Said(cfg, held, order', t, k)) == FirstHandle(Says(cfg, held, n', t, k));
    assert AgreeOn(cfg, held, n, n', t, k);
    if FirstName(Said(cfg, held, order, t, k)) != "" && FirstName(Said(cfg, held, order', t, k)) != "" {
      var m :| m in order && FirstName(Says(cfg, held, m, t, k)) == FirstName(Said(cfg, held, order, t, k));
      var m' :| m' in order' && FirstName(Says(cfg, held, m', t, k)) == FirstName(Said(cfg, held, order', t, k));
      assert AgreeOn(cfg, held, m, m', t, k);
    }
  }

  lemma MergedMember(cfg: Config, held: Rowsets, order: seq<string>, t: string, k: string)
    ensures Merged(cfg, held, order).Has(t, k) <==> Said(cfg, held, order, t, k) != []
    ensures Merged(cfg, held, order).Has(t, k) ==>
              && Merged(cfg, held, order).At(t, k).handle == FirstHandle(Said(cfg, held, order, t, k))
              && Merged(cfg, held, order).At(t, k).name == FirstName(Said(cfg, held, order, t, k))
  {
    GroupExists(Surviving(cfg.exclude, Gathered(held, order)), t, k);
  }

  lemma AgreementHidesOrder(cfg: Config, held: Rowsets, order: seq<string>, order': seq<string>)
    requires Schedule(cfg, order) && Schedule(cfg, order') && Agreeing(cfg, held)
    ensures Merged(cfg, held, order) == Merged(cfg, held, order')
  {
    var idx, other := Merged(cfg, held, order), Merged(cfg, held, order');
    BuiltValid(Surviving(cfg.exclude, Gathered(held, order)));
    BuiltValid(Surviving(cfg.exclude, Gathered(held, order')));
    SyncRuns.ScheduleIrrelevant(cfg, held, order, order');
    forall t, k
      ensures idx.Has(t, k) <==> other.Has(t, k)
      ensures idx.Has(t, k) ==> idx.At(t, k) == other.At(t, k)
    {
      ViewGivesMember(idx, other, t, k);
      MergedMember(cfg, held, order, t, k);
      MergedMember(cfg, held, order', t, k);
      if idx.Has(t, k) { SameSaid(cfg, held, order, order', t, k); }
    }
    IndexExtensional(idx, other);
  }

  /** Any source may finish first. */
  lemma FirstToFinish(cfg: Config, n: string) returns (rest: seq<string>)
    requires Distinct(cfg.sources) && n in cfg.sources
    ensures Schedule(cfg, [n] + rest)
  {
    var i :| 0 <= i < |cfg.sources| && cfg.sources[i] == n;
    rest := cfg.sources[..i] + cfg.sources[i + 1..];
    forall x ensures x in [n] + rest <==> x in cfg.sources {
      if x in cfg.sources && x != n {
        var j :| 0 <= j < |cfg.sources| && cfg.sources[j] == x;
        assert x == rest[if j < i then j else j - 1];
      }
    }
    assert Elems([n] + rest) == Elems(cfg.sources);
  }

  lemma FirstFinisherDecides(cfg: Config, held: Rowsets, n: string, rest: seq<string>, t: string, k: string)
    requires Says(cfg, held, n, t, k) != []
    ensures var m := Merged(cfg, held, [n] + rest);
            && m.Has(t, k) && m.At(t, k).handle == FirstHandle(Says(cfg, held, n, t, k))
            && (FirstName(Says(cfg, held, n, t, k)) != "" ==> m.At(t, k).name == FirstName(Says(cfg, held, n, t, k)))
  {
    SaidFirst(cfg, held, n, rest, t, k);
    MergedMember(cfg, held, [n] + rest, t, k);
    FirstNameAppend(Says(cfg, held, n, t, k), Said(cfg, held, rest, t, k));
  }

  lemma SameMergeAgrees(cfg: Config, held: Rowsets, n: string, rest: seq<string>, n': string, rest': seq<string>,
                        t: string, k: string)
    requires Merged(cfg, held, [n] + rest) == Merged(cfg, held, [n'] + rest')
    ensures AgreeOn(cfg, held, n, n', t, k)
  {
    if Says(cfg, held, n, t, k) != [] && Says(cfg, held, n', t, k) != [] {
      FirstFinisherDecides(cfg, held, n, rest, t, k);
      FirstFinisherDecides(cfg, held, n', rest', t, k);
    }
  }

  lemma HiddenOrderAgrees(cfg: Config, held: Rowsets, n: string, n': string, t: string, k: string)
    requires Distinct(cfg.sources) && OrderInvisible(cfg, held) && n in cfg.sources && n' in cfg.sources
    ensures AgreeOn(cfg, held, n, n', t, k)
  {
    var rest := FirstToFinish(cfg, n);
    var rest' := FirstToFinish(cfg, n');
    SameMergeAgrees(cfg, held, n, rest, n', rest', t, k);
  }

  lemma HiddenOrderAgreesEverywhere(cfg: Config, held: Rowsets)
    requires Distinct(cfg.sources) && OrderInvisible(cfg, held)
    ensures Agreeing(cfg, held)
  {
    forall n, n', t, k | n in cfg.sources && n' in cfg.sources ensures AgreeOn(cfg, held, n, n', t, k) {
      HiddenOrderAgrees(cfg, held, n, n', t, k);
    }
  }

  /**
   The served index - casing and names included - is the same for every completion order exactly
   when no two sources that know a member disagree on its casing or its name.
   */
  lemma OrderInvisibleIff(cfg: Config, held: Rowsets)
    requires Distinct(cfg.sources)
    ensures OrderInvisible(cfg, held) <==> Agreeing(cfg, held)
  {
    if Agreeing(cfg, held) {
      forall order, order' | Schedule(cfg, order) && Schedule(cfg, order')
        ensures Merged(cfg, held, order) == Merged(cfg, held, order')
      {
        AgreementHidesOrder(cfg, held, order, order');
      }
    }
    if OrderInvisible(cfg, held) {
      HiddenOrderAgreesEverywhere(cfg, held);
    }
  }

  // ----- Two sources that spell a handle differently -----

  const SPELLINGS := Config([MANUAL, PROTOCOL_GUILD], map[], {})

  const SPELT: Rowsets := map[
    MANUAL := [Membership("Alice", "core", MANUAL, "", "")],
    PROTOCOL_GUILD := [Membership("alice", "core", PROTOCOL_GUILD, "", "")]]

  lemma OneRow(cfg: Config, held: Rowsets, n: string, m: Membership, t: string, k: string)
    requires HeldOf(held, n) == [m] && m.Key() !in cfg.exclude && m.At(t, k)
    ensures Says(cfg, held, n, t, k) == [m]
  {
    var rows := [m];
    assert rows[..0] == [] && rows[0] == m;
    assert Surviving(cfg.exclude, rows) == Surviving(cfg.exclude, rows[..0]) + [m];
    assert Surviving(cfg.exclude, rows[..0]) == [];
    assert Group(rows, t, k) == Group(rows[..0], t, k) + [m];
    assert Group(rows[..0], t, k) == [];
  }

  lemma SpeltApart()
    ensures MANUAL != PROTOCOL_GUILD
    ensures HeldOf(SPELT, MANUAL) == [Membership("Alice", "core", MANUAL, "", "")]
    ensures HeldOf(SPELT, PROTOCOL_GUILD) == [Membership("alice", "core", PROTOCOL_GUILD, "", "")]
  {
    assert |MANUAL| != |PROTOCOL_GUILD|;
  }

  lemma SpeltDisagrees()
    ensures !AgreeOn(SPELLINGS, SPELT, MANUAL, PROTOCOL_GUILD, "core", "alice")
  {
    SpeltApart();
    var m, m' := Membership("Alice", "core", MANUAL, "", ""), Membership("alice", "core", PROTOCOL_GUILD, "", "");
    assert ToLower("Alice") == "alice" && ToLower("alice") == "alice";
    OneRow(SPELLINGS, SPELT, MANUAL, m, "core", "alice");
    OneRow(SPELLINGS, SPELT, PROTOCOL_GUILD, m', "core", "alice");
    assert "Alice"[0] != "alice"[0];
  }

  lemma SpeltHygienic()
    ensures Distinct(SPELLINGS.sources) && MANUAL in SPELLINGS.sources && PROTOCOL_GUILD in SPELLINGS.sources
    ensures Hygienic(SPELLINGS, SPELT)
  {
    SpeltApart();
    forall n | n in SPELLINGS.sources ensures FromSource(n, HeldOf(SPELT, n)) {
      assert n == MANUAL || n == PROTOCOL_GUILD;
    }
  }

  lemma DisagreementShows(cfg: Config, held: Rowsets, n: string, n': string, t: string, k: string)
    requires Distinct(cfg.sources) && n in cfg.sources && n' in cfg.sources && !AgreeOn(cfg, held, n, n', t, k)
    ensures !OrderInvisible(cfg, held)
  {
    OrderInvisibleIff(cfg, held);
  }

  /** Each source is hygienic and consistent in itself, yet which casing is served depends on who finishes first. */
  lemma CasingDependsOnOrder()
    ensures Distinct(SPELLINGS.sources) && Hygienic(SPELLINGS, SPELT)
    ensures !OrderInvisible(SPELLINGS, SPELT)
  {
    SpeltHygienic();
    SpeltDisagrees();
    DisagreementShows(SPELLINGS, SPELT, MANUAL, PROTOCOL_GUILD, "core", "alice");
  }
}
