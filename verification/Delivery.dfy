/** Notifications: the delivery attempts of a create, against the subscriptions as their creators submitted them. */
module Delivery {
  import opened Options
  import opened Packing
  import opened Store
  import opened OneM2M
  import opened ResourceTree
  import opened History
  import opened Containers
  import opened Access
  import Admission

  /** The submitted criteria. */
  function CriteriaOf(e: Enc): Criteria { Criteria(e.net, e.chty, e.labels, e.sizeAbove, e.sizeBelow) }

  /** The submitted values are ones the loader accepts. */
  predicate Sane(c: Content)
    requires c.Sub?
  {
    && (c.enc.stateTagSmaller.Some? && c.enc.stateTagBigger.Some?
        ==> c.enc.stateTagSmaller.value <= c.enc.stateTagBigger.value)
    && (c.rateMax.Some? ==> c.rateMax.value >= 0)
    && (c.rateWindow.Some? ==> c.rateWindow.value > 0)
    && (c.batchNumber.Some? ==> c.batchNumber.value >= 0)
  }

  /** The submitted criteria are met by c: only creations of a direct child (type 3) notify. */
  predicate Met(e: Enc, c: Content)
    requires IsResource(c)
  {
    var size := if c.Cin? then c.cs else 0;
    && 3 in e.net
    && (e.chty == [] || Admission.TypeNumber(c) in e.chty)
    && (forall k :: 0 <= k < |e.labels| ==> e.labels[k] in c.labels)
    && (match e.sizeAbove case Some(limit) => limit < size case None => true)
    && (match e.sizeBelow case Some(limit) => size < limit case None => true)
  }

  /** This subscription is due a notification about c. */
  predicate Due(s: Created, c: Content)
    requires IsResource(c)
  {
    s.content.Sub? && Sane(s.content) && Met(s.content.enc, c)
  }

  /** The matching functions test the submitted criteria. */
  lemma MatchesIffMet(e: Enc, c: Content)
    requires IsResource(c)
    ensures MatchesCriteria(CriteriaOf(e), c) <==> Met(e, c)
  {
    if Met(e, c) {
      forall l | l in e.labels ensures l in c.labels { var k :| 0 <= k < |e.labels| && e.labels[k] == l; }
    }
    if MatchesCriteria(CriteriaOf(e), c) {
      forall k | 0 <= k < |e.labels| ensures e.labels[k] in c.labels { assert e.labels[k] in CriteriaOf(e).labels; }
    }
    assert forall t: nat :: t in e.chty <==> t in CriteriaOf(e).chty;
  }

  /** One attempt for each notification URI, in their order. */
  function ToEach(s: Created): (r: seq<(string, string)>)
    requires s.content.Sub?
    ensures |r| == |s.content.nus| && forall k :: 0 <= k < |r| ==> r[k] == (s.ri, s.content.nus[k])
  {
    seq(|s.content.nus|, k requires 0 <= k < |s.content.nus| => (s.ri, s.content.nus[k]))
  }

  function Expected(subs: seq<Created>, c: Content): seq<(string, string)>
    requires IsResource(c)
  {
    if subs == [] then []
    else
      var s := subs[|subs| - 1];
      Expected(subs[..|subs| - 1], c) + (if Due(s, c) then ToEach(s) else [])
  }

  /** An attempt is expected for exactly the notification URIs of the subscriptions that are due one. */
  lemma {:induction false} ExpectedIff(subs: seq<Created>, c: Content, x: (string, string))
    requires IsResource(c)
    ensures x in Expected(subs, c) <==> exists s :: s in subs && Due(s, c) && x.0 == s.ri && x.1 in s.content.nus
  {
    hide Due;
    if subs != [] {
      var n := |subs| - 1;
      ExpectedIff(subs[..n], c, x);
      assert subs == subs[..n] + [subs[n]];
      if Due(subs[n], c) {
        assert subs[n].content.Sub? by { DueIsSub(subs[n], c); }
        var all := ToEach(subs[n]);
        if x.0 == subs[n].ri && x.1 in subs[n].content.nus {
          var k :| 0 <= k < |all| && subs[n].content.nus[k] == x.1;
          assert all[k] == x;
        }
      }
    }
  }

  lemma DueIsSub(s: Created, c: Content)
    requires IsResource(c) && Due(s, c)
    ensures s.content.Sub?
  {
  }

  /** A subscription comes back from the store as it was submitted. */
  lemma StoredSubscription(s: Created)
    requires s.content.Sub? && Survives(s.content.enc.labels) && Survives(s.content.nus)
    ensures AttrsOf(s).SubAttrs?
    ensures LoadSubscription(AttrsOf(s).sub) == Subscription(CriteriaOf(s.content.enc), s.content.nus, s.creator)
    ensures Loadable(AttrsOf(s).sub) <==> Sane(s.content)
  {
    PackRoundTrip(s.content.enc.labels);
    PackRoundTrip(s.content.nus);
    EnumRoundTrip(s.content.enc.net);
    EnumRoundTrip(s.content.enc.chty);
    hide *;
    StoredColumns(s);
    SubmittedCriteria(s.content.enc);
  }

  lemma StoredColumns(s: Created)
    requires s.content.Sub?
    ensures AttrsOf(s).SubAttrs?
    ensures var e := s.content.enc;
            LoadSubscription(AttrsOf(s).sub) ==
            Subscription(Criteria(UnpackEnums(PackEnums(e.net)), UnpackEnums(PackEnums(e.chty)), Unpack(Pack(e.labels)),
                                  e.sizeAbove, e.sizeBelow), Unpack(Pack(s.content.nus)), s.creator)
    ensures Loadable(AttrsOf(s).sub) <==> Sane(s.content)
  {
    hide Pack, Unpack, PackEnums, UnpackEnums;
  }

  lemma SubmittedCriteria(e: Enc)
    ensures CriteriaOf(e) == Criteria(e.net, e.chty, e.labels, e.sizeAbove, e.sizeBelow)
  {
  }

  lemma AttemptsForOne(rows: seq<Row>, cfg: Config, log: seq<Created>, k: nat, c: Content)
    requires Tree(rows, cfg) && Logged(rows, log) && k < |log| && IsResource(c)
    requires log[k].content.Sub? && Survives(log[k].content.enc.labels) && Survives(log[k].content.nus)
    ensures AttemptsFor(rows, log[k].ri, c) == if Due(log[k], c) then ToEach(log[k]) else []
  {
    assert FoundById(rows, k + 1);
    var s := log[k];
    assert rows[k + 1] == RowOf(s, rows[k + 1].path);
    StoredSubscription(s);
    MatchesIffMet(s.content.enc, c);
    hide Resolve, LoadSubscription, Loadable, AttrsOf, Sane, Tree, Survives, Pairs, MatchesCriteria, Met, CriteriaOf;
    assert Pairs(s.ri, s.content.nus) == ToEach(s);
    assert Resolve(rows, s.ri) == k + 1 && rows[k + 1].attrs == AttrsOf(s) && rows[k + 1].ri == s.ri;
  }

  lemma {:induction false} AttemptsForMany(rows: seq<Row>, cfg: Config, log: seq<Created>, pi: string, n: nat, c: Content)
    requires Tree(rows, cfg) && Logged(rows, log) && IsResource(c)
    requires n <= |ChildrenOf(log, pi, SUBSCRIPTION_TYPE)|
    requires forall s :: s in log && s.content.Sub? && s.pi == pi ==> Survives(s.content.enc.labels) && Survives(s.content.nus)
    ensures var subs := ChildrenOf(log, pi, SUBSCRIPTION_TYPE);
            AttemptsForAll(rows, Ids(subs)[..n], c) == Expected(subs[..n], c)
  {
    var subs := ChildrenOf(log, pi, SUBSCRIPTION_TYPE);
    if n > 0 {
      AttemptsForMany(rows, cfg, log, pi, n - 1, c);
      var k := ChildInLog(log, pi, SUBSCRIPTION_TYPE, n - 1);
      assert log[k].content.Sub? && log[k] in log;
      AttemptsForOne(rows, cfg, log, k, c);
      hide *;
      NextExpected(rows, subs, n - 1, c);
    }
  }

  lemma ExpectedSnoc(subs: seq<Created>, s: Created, c: Content)
    requires IsResource(c) && s.content.Sub?
    ensures Expected(subs + [s], c) == Expected(subs, c) + (if Due(s, c) then ToEach(s) else [])
  {
    assert (subs + [s])[..|subs|] == subs;
    hide Due, ToEach;
  }

  lemma AttemptsSnoc(rows: seq<Row>, ids: seq<string>, id: string, c: Content)
    requires IsResource(c)
    ensures AttemptsForAll(rows, ids + [id], c) == AttemptsForAll(rows, ids, c) + AttemptsFor(rows, id, c)
  {
    assert (ids + [id])[..|ids|] == ids;
    hide AttemptsFor;
  }

  lemma NextExpected(rows: seq<Row>, subs: seq<Created>, i: nat, c: Content)
    requires IsResource(c) && i < |subs| && subs[i].content.Sub?
    ensures AttemptsForAll(rows, Ids(subs)[..i + 1], c) ==
            AttemptsForAll(rows, Ids(subs)[..i], c) + AttemptsFor(rows, subs[i].ri, c)
    ensures Expected(subs[..i + 1], c) ==
            Expected(subs[..i], c) + (if Due(subs[i], c) then ToEach(subs[i]) else [])
  {
    assert Ids(subs)[..i + 1] == Ids(subs)[..i] + [subs[i].ri] && subs[..i + 1] == subs[..i] + [subs[i]];
    hide *;
    AttemptsSnoc(rows, Ids(subs)[..i], subs[i].ri, c);
    ExpectedSnoc(subs[..i], subs[i], c);
  }

  /** In a tree, the attempts about a resource are those expected of the subscriptions beside it. */
  lemma AttemptsAreExpected(rows: seq<Row>, cfg: Config, log: seq<Created>, created: Created, p: nat)
    requires Tree(rows, cfg) && Logged(rows, log) && IsResource(created.content)
    requires p < |rows| && created.pi == rows[p].ri
    requires forall s :: s in log && s.content.Sub? && s.pi == created.pi
                     ==> Survives(s.content.enc.labels) && Survives(s.content.nus)
    ensures Attempts(rows, created) == Expected(ChildrenOf(log, created.pi, SUBSCRIPTION_TYPE), created.content)
  {
    Kinds();
    assert FoundById(rows, p);
    var subs := ChildrenOf(log, created.pi, SUBSCRIPTION_TYPE);
    ChildrenAreLogged(rows, log, created.pi, IsSub, SUBSCRIPTION_TYPE);
    AttemptsForMany(rows, cfg, log, created.pi, |subs|, created.content);
    assert Ids(subs)[..|subs|] == Ids(subs) && subs[..|subs|] == subs;
    hide Resolve, ChildIds, AttemptsForAll, Expected, ChildrenOf, Tree, Logged, Survives;
  }

  /**
   After a create the attempts are, in order, those due to the subscriptions accepted earlier under the same
   parent, judged by what their creators submitted; a refused create or a new subscription causes none.
   */
  lemma DeliveriesAreExact(cfg: Config, events: seq<Event>, req: Request, net: Net)
    requires ConfigOk(cfg) && FreeRun(cfg, events) && FreeStep(cfg, Run(cfg, events), Submit(req, net))
    requires var w := Run(cfg, events);
             var created := Create(w.tables, cfg.ri, w.spid, req, net).1.created;
             created.Some? ==> forall s :: s in w.log && s.content.Sub? && s.pi == created.value.pi
                                           ==> Survives(s.content.enc.labels) && Survives(s.content.nus)
    ensures var w := Run(cfg, events);
            var reply := Create(w.tables, cfg.ri, w.spid, req, net).1;
            var attempts := CreateAttempts(w.tables, cfg.ri, w.spid, req, net);
            if reply.created.None? || reply.created.value.content.Sub? then attempts == []
            else
              var c := reply.created.value;
              IsResource(c.content) && attempts == Expected(ChildrenOf(w.log, c.pi, SUBSCRIPTION_TYPE), c.content)
  {
    var w := Run(cfg, events);
    RunsKeepTree(cfg, events);
    hide Run, FreeRun, Create, Inv, Tree, Free, Survives, ChildrenOf, Attempts, Expected, Full, Insert, RowOf,
         ValidName, LegalChild;
    if Accepted(cfg, w, req, net) {
      var (t', reply) := Create(w.tables, cfg.ri, w.spid, req, net);
      var c, p := FreeCreateAppends(cfg, w, req, net);
      if !c.content.Sub? {
        StepKeepsInv(cfg, w, Submit(req, net));
        TreeOf(cfg, Step(cfg, w, Submit(req, net)));
        AttemptsAreExpected(t'.rows, cfg, w.log + [c], c, p);
        NoNewSubscription(w.log, c);
      }
    }
  }

  lemma NoNewSubscription(log: seq<Created>, c: Created)
    requires IsResource(c.content) && !c.content.Sub?
    ensures ChildrenOf(log + [c], c.pi, SUBSCRIPTION_TYPE) == ChildrenOf(log, c.pi, SUBSCRIPTION_TYPE)
  {
    assert (log + [c])[..|log|] == log;
  }
}
