/**
 * The scheduled jobs (`aviso_10dias`, `aviso_20dias`, `aviso_30dias`,
 * `aviso_58dias`, `reporte_semanal`): each walks `user_db` in insertion
 * order, skips users without a UID string, looks the UID up and turns the
 * monthly volume into messages and, on day 58, a ban. An exception ends the
 * job: the actions already performed stay, the remaining users get nothing.
 */
module Jobs {
  import opened Optional
  import opened UserDb

  /** What a job does for one user: nothing, some actions, or some actions and then an exception. */
  datatype Step = Skip | Emit(acts: seq<Action>) | Abort(acts: seq<Action>)

  function StepActs(s: Step): seq<Action> {
    if s.Skip? then [] else s.acts
  }

  /**
   * `float(info["data"][0].get("volMonth") or 0)`, with `toFloat` standing for
   * Python's `float` on a string (`None` where it raises).
   */
  function VolumeAmount(reply: AffiliateReply, toFloat: string -> Option<real>): (x: Option<real>)
    // It raises exactly where the reported text does, or where `float` does.
    ensures VolumeText(reply).None? ==> x.None?
    // Otherwise it is the float of the text the reports show, the default "0" reading as 0.
    ensures VolumeText(reply).Some? && VolumeText(reply).value != "0" ==> x == toFloat(VolumeText(reply).value)
    ensures VolumeText(reply) == Some("0") ==> x == Some(0.0) || x == toFloat("0")
  {
    if reply.AffiliateReply? && reply.data.Some? && |reply.data.value| > 0 then
      var vol := reply.data.value[0].volMonth;
      if vol.None? || vol.value == "" then Some(0.0) else toFloat(vol.value)
    else
      None
  }

  const MONTH1_TARGET: real := 25000.0
  const MONTH2_TARGET: real := 50000.0

  /** The body of a job's loop for one user, as it is evidently meant to run. */
  function UserStep(job: Job, user: UserId, rec: Record,
                    lookup: string -> AffiliateReply, toFloat: string -> Option<real>): (r: Step)
    // Users without a UID string are skipped; the others are looked up first, by their stored UID.
    ensures r.Skip? <==> !Tracked(rec)
    ensures !r.Skip? ==> 1 <= |r.acts| <= 3 && r.acts[0] == Lookup(rec.uid.value)
    // Everything after the lookup concerns the user; an exception leaves only the lookup.
    ensures !r.Skip? ==> forall i :: 1 <= i < |r.acts| ==> Addressee(r.acts[i]) == Some(user)
    ensures r.Abort? ==> r.acts == [Lookup(rec.uid.value)]
    // Only the day-58 job bans.
    ensures Ban(user) in StepActs(r) ==> job == Day58
  {
    if !Tracked(rec) then Skip
    else
      var uid := rec.uid.value;
      var reply := lookup(uid);
      match job
      case Day30 =>
        (match VolumeAmount(reply, toFloat)
         case None => Abort([Lookup(uid)])
         case Some(x) =>
           Emit([Lookup(uid), Send(user, if x < MONTH1_TARGET then Month1Short(x) else Month1Met(x))]))
      case Day58 =>
        (match VolumeAmount(reply, toFloat)
         case None => Abort([Lookup(uid)])
         case Some(x) =>
           if x < MONTH2_TARGET then Emit([Lookup(uid), Send(user, Month2Short(x)), Ban(user)])
           else Emit([Lookup(uid)]))
      case _ =>
        (match VolumeText(reply)
         case None => Abort([Lookup(uid)])
         case Some(v) => Emit([Lookup(uid), Send(user, VolumeReport(job, v))]))
  }

  /** Every user of `order` has a record. */
  predicate Covers(order: seq<UserId>, db: map<UserId, Record>) {
    forall i :: 0 <= i < |order| ==> order[i] in db
  }

  predicate NoDuplicates(order: seq<UserId>) {
    forall i, j :: 0 <= i < j < |order| ==> order[i] != order[j]
  }

  /** The actions of one firing of `job` over the users `order`. */
  function Trace(job: Job, order: seq<UserId>, db: map<UserId, Record>,
                 lookup: string -> AffiliateReply, toFloat: string -> Option<real>): (r: seq<Action>)
    requires Covers(order, db)
    // Each user contributes at most a lookup, a message and a ban.
    ensures |r| <= 3 * |order|
  {
    if order == [] then []
    else
      match UserStep(job, order[0], db[order[0]], lookup, toFloat)
      case Skip => Trace(job, order[1..], db, lookup, toFloat)
      case Emit(acts) => acts + Trace(job, order[1..], db, lookup, toFloat)
      case Abort(acts) => acts
  }

  /** The rest of a firing from position `i` of `order` on. */
  function TraceFrom(job: Job, order: seq<UserId>, i: nat, db: map<UserId, Record>,
                     lookup: string -> AffiliateReply, toFloat: string -> Option<real>): seq<Action>
    requires Covers(order, db) && i <= |order|
  {
    assert Covers(order[i..], db) by {
      forall j | 0 <= j < |order[i..]|
        ensures order[i..][j] in db
      {
        assert order[i..][j] == order[i + j];
      }
    }
    Trace(job, order[i..], db, lookup, toFloat)
  }

  /** From position `i`, a firing is that user's step followed, unless it raised, by the rest. */
  lemma TraceFromStep(job: Job, order: seq<UserId>, i: nat, db: map<UserId, Record>,
                      lookup: string -> AffiliateReply, toFloat: string -> Option<real>)
    requires Covers(order, db) && i < |order|
    ensures var step := UserStep(job, order[i], db[order[i]], lookup, toFloat);
            TraceFrom(job, order, i, db, lookup, toFloat)
              == StepActs(step) + if step.Abort? then [] else TraceFrom(job, order, i + 1, db, lookup, toFloat)
  {
    assert order[i..][0] == order[i] && order[i..][1..] == order[i + 1..];
  }

  /** Read from the start, the rest of a firing is all of it; read from the end, it is empty. */
  lemma TraceFromEnds(job: Job, order: seq<UserId>, db: map<UserId, Record>,
                      lookup: string -> AffiliateReply, toFloat: string -> Option<real>)
    requires Covers(order, db)
    ensures TraceFrom(job, order, 0, db, lookup, toFloat) == Trace(job, order, db, lookup, toFloat)
    ensures TraceFrom(job, order, |order|, db, lookup, toFloat) == []
  {
    assert order[0..] == order;
  }

  /** No user's lookup or volume conversion raises. */
  predicate NoFailure(job: Job, order: seq<UserId>, db: map<UserId, Record>,
                      lookup: string -> AffiliateReply, toFloat: string -> Option<real>)
    requires Covers(order, db)
  {
    forall u :: u in order ==> !UserStep(job, u, db[u], lookup, toFloat).Abort?
  }

  /** The loop of a job over the users `visit`, in that order. */
  method VisitAll(job: Job, visit: seq<UserId>, db: map<UserId, Record>,
                  lookup: string -> AffiliateReply, toFloat: string -> Option<real>)
    returns (acts: seq<Action>)
    requires Covers(visit, db)
    ensures acts == Trace(job, visit, db, lookup, toFloat)
  {
    TraceFromEnds(job, visit, db, lookup, toFloat);
    ghost var full := Trace(job, visit, db, lookup, toFloat);
    acts := [];
    var i := 0;
    while i < |visit|
      invariant 0 <= i <= |visit|
      invariant acts + TraceFrom(job, visit, i, db, lookup, toFloat) == full
    {
      TraceFromStep(job, visit, i, db, lookup, toFloat);
      var done, failed := VisitUser(job, visit[i], db[visit[i]], lookup, toFloat);
      ghost var here := TraceFrom(job, visit, i, db, lookup, toFloat);
      if failed {
        // The exception ends the job; the remaining users are not visited.
        assert here == done + [];
        Append(acts, done, []);
        return acts + done;
      }
      ghost var later := TraceFrom(job, visit, i + 1, db, lookup, toFloat);
      assert here == done + later;
      Append(acts, done, later);
      acts := acts + done;
      i := i + 1;
    }
    Append(acts, [], []);
  }

  lemma Append(a: seq<Action>, b: seq<Action>, c: seq<Action>)
    ensures a + (b + c) == (a + b) + c && a + [] == a
  {
  }

  /**
   * The body of a job's loop for user `u` with record `rec`: the actions it
   * performs, and whether it ended in an exception.
   */
  method VisitUser(job: Job, u: UserId, rec: Record,
                   lookup: string -> AffiliateReply, toFloat: string -> Option<real>)
    returns (done: seq<Action>, failed: bool)
    ensures done == StepActs(UserStep(job, u, rec, lookup, toFloat))
    ensures failed <==> UserStep(job, u, rec, lookup, toFloat).Abort?
  {
    done := [];
    failed := false;
    if !rec.uid.Uid? {
      return;
    }
    var uid := rec.uid.value;
    done := [Lookup(uid)];
    var reply := lookup(uid);
    if job == Day30 || job == Day58 {
      var x := VolumeAmount(reply, toFloat);
      if x.None? {
        failed := true;
      } else if job == Day30 {
        var notice := if x.value < MONTH1_TARGET then Month1Short(x.value) else Month1Met(x.value);
        done := done + [Send(u, notice)];
      } else if x.value < MONTH2_TARGET {
        done := done + [Send(u, Month2Short(x.value)), Ban(u)];
      }
    } else {
      var shown := VolumeText(reply);
      if shown.None? {
        failed := true;
      } else {
        done := done + [Send(u, VolumeReport(job, shown.value))];
      }
    }
  }

  // ---------------------------------------------------------------------------
  // What a firing does to each user
  // ---------------------------------------------------------------------------

  /**
   * Users without a UID string (no `uid` key, or `uid = None` after the
   * bypass code) are never messaged or banned, and only stored UIDs are
   * looked up.
   */
  lemma {:induction false} OnlyTrackedUsers(job: Job, order: seq<UserId>, db: map<UserId, Record>,
                                            lookup: string -> AffiliateReply,
                                            toFloat: string -> Option<real>, a: Action)
    requires Covers(order, db)
    requires a in Trace(job, order, db, lookup, toFloat)
    ensures a.Lookup? ==> exists u :: u in order && db[u].uid == Uid(a.uid)
    ensures !a.Lookup? ==> a.user in order && Tracked(db[a.user])
  {
    if order != [] {
      var step := UserStep(job, order[0], db[order[0]], lookup, toFloat);
      if a in StepActs(step) {
        assert db[order[0]].uid == Uid(db[order[0]].uid.value);
      } else {
        OnlyTrackedUsers(job, order[1..], db, lookup, toFloat, a);
      }
    }
  }

  /** One user's step concerns that user alone. */
  lemma StepAddressesOwner(job: Job, user: UserId, rec: Record,
                           lookup: string -> AffiliateReply, toFloat: string -> Option<real>,
                           other: UserId)
    requires other != user
    ensures For(other, StepActs(UserStep(job, user, rec, lookup, toFloat))) == []
  {
    var acts := StepActs(UserStep(job, user, rec, lookup, toFloat));
    ForNone(other, acts);
  }

  /**
   * When nothing raises, each user receives exactly what its own step
   * addresses to it, wherever it stands in the dictionary order.
   */
  lemma {:induction false} EachUserOnce(job: Job, order: seq<UserId>, db: map<UserId, Record>,
                                        lookup: string -> AffiliateReply,
                                        toFloat: string -> Option<real>, u: UserId)
    requires Covers(order, db) && NoDuplicates(order)
    requires NoFailure(job, order, db, lookup, toFloat)
    ensures For(u, Trace(job, order, db, lookup, toFloat))
              == if u in order then For(u, StepActs(UserStep(job, u, db[u], lookup, toFloat))) else []
  {
    if order != [] {
      var v := order[0];
      var step := UserStep(job, v, db[v], lookup, toFloat);
      var rest := Trace(job, order[1..], db, lookup, toFloat);
      assert NoFailure(job, order[1..], db, lookup, toFloat);
      EachUserOnce(job, order[1..], db, lookup, toFloat, u);
      ForConcat(u, StepActs(step), rest);
      assert Trace(job, order, db, lookup, toFloat) == StepActs(step) + rest;
      if u == v {
        assert u !in order[1..] by {
          forall j | 0 <= j < |order[1..]|
            ensures order[1..][j] != u
          {
            assert order[1..][j] == order[j + 1];
          }
        }
      } else {
        StepAddressesOwner(job, v, db[v], lookup, toFloat, u);
        assert u in order <==> u in order[1..];
      }
    } else {
      assert u !in order;
    }
  }

  /**
   * The day-30 job sends every tracked user exactly one message: a warning
   * below 25000, a congratulation otherwise; no one else hears from it.
   */
  lemma Day30OneMessageEach(order: seq<UserId>, db: map<UserId, Record>,
                            lookup: string -> AffiliateReply, toFloat: string -> Option<real>,
                            u: UserId)
    requires Covers(order, db) && NoDuplicates(order)
    requires NoFailure(Day30, order, db, lookup, toFloat)
    requires u in order
    ensures !Tracked(db[u]) ==> For(u, Trace(Day30, order, db, lookup, toFloat)) == []
    ensures Tracked(db[u]) ==>
              var x := VolumeAmount(lookup(db[u].uid.value), toFloat);
              x.Some?
              && For(u, Trace(Day30, order, db, lookup, toFloat))
                   == [Send(u, if x.value < 25000.0 then Month1Short(x.value) else Month1Met(x.value))]
  {
    EachUserOnce(Day30, order, db, lookup, toFloat, u);
  }

  /**
   * The day-58 job warns and then bans exactly the tracked users whose
   * volume is below 50000, and does nothing to anyone else.
   */
  lemma Day58BansShortfall(order: seq<UserId>, db: map<UserId, Record>,
                           lookup: string -> AffiliateReply, toFloat: string -> Option<real>,
                           u: UserId)
    requires Covers(order, db) && NoDuplicates(order)
    requires NoFailure(Day58, order, db, lookup, toFloat)
    requires u in order
    ensures !Tracked(db[u]) ==> For(u, Trace(Day58, order, db, lookup, toFloat)) == []
    ensures Tracked(db[u]) ==>
              var x := VolumeAmount(lookup(db[u].uid.value), toFloat);
              x.Some?
              && For(u, Trace(Day58, order, db, lookup, toFloat))
                   == if x.value < 50000.0 then [Send(u, Month2Short(x.value)), Ban(u)] else []
    ensures (Ban(u) in Trace(Day58, order, db, lookup, toFloat))
              <==> Tracked(db[u]) && VolumeAmount(lookup(db[u].uid.value), toFloat).value < 50000.0
  {
    EachUserOnce(Day58, order, db, lookup, toFloat, u);
    Day58Step(u, db[u], lookup, toFloat);
    var acts := Trace(Day58, order, db, lookup, toFloat);
    ForMembers(u, acts);
    assert Ban(u) in acts <==> Ban(u) in For(u, acts);
  }

  /** What the day-58 step of one user addresses to that user, when it does not raise. */
  lemma Day58Step(u: UserId, rec: Record, lookup: string -> AffiliateReply, toFloat: string -> Option<real>)
    requires !UserStep(Day58, u, rec, lookup, toFloat).Abort?
    ensures !Tracked(rec) ==> For(u, StepActs(UserStep(Day58, u, rec, lookup, toFloat))) == []
    ensures Tracked(rec) ==>
              var x := VolumeAmount(lookup(rec.uid.value), toFloat);
              x.Some?
              && For(u, StepActs(UserStep(Day58, u, rec, lookup, toFloat)))
                   == if x.value < 50000.0 then [Send(u, Month2Short(x.value)), Ban(u)] else []
  {
    if Tracked(rec) {
      var x := VolumeAmount(lookup(rec.uid.value), toFloat);
      var acts := StepActs(UserStep(Day58, u, rec, lookup, toFloat));
      if x.value < 50000.0 {
        assert acts == [Lookup(rec.uid.value)] + [Send(u, Month2Short(x.value)), Ban(u)];
        ForConcat(u, [Lookup(rec.uid.value)], [Send(u, Month2Short(x.value)), Ban(u)]);
      }
    }
  }

  /** The day-10, day-20 and weekly jobs send every tracked user one report of its volume text. */
  lemma ReportsOneEach(job: Job, order: seq<UserId>, db: map<UserId, Record>,
                       lookup: string -> AffiliateReply, toFloat: string -> Option<real>,
                       u: UserId)
    requires job == Day10 || job == Day20 || job == Weekly
    requires Covers(order, db) && NoDuplicates(order)
    requires NoFailure(job, order, db, lookup, toFloat)
    requires u in order
    ensures !Tracked(db[u]) ==> For(u, Trace(job, order, db, lookup, toFloat)) == []
    ensures Tracked(db[u]) ==>
              var v := VolumeText(lookup(db[u].uid.value));
              v.Some? && For(u, Trace(job, order, db, lookup, toFloat)) == [Send(u, VolumeReport(job, v.value))]
  {
    EachUserOnce(job, order, db, lookup, toFloat, u);
  }

  // ---------------------------------------------------------------------------
  // The jobs as written
  // ---------------------------------------------------------------------------

  /**
   * The loop body as written. Every message text evaluates
   * `await context.bot.get_chat(user_id).first_name`, which reads
   * `first_name` off the un-awaited coroutine and raises `AttributeError`.
   * So a step that reaches a message ends in an exception after its lookup.
   * On day 58 a volume of at least 50000 sends nothing, so that step passes
   * without raising.
   */
  function UserStepAsWritten(job: Job, rec: Record,
                             lookup: string -> AffiliateReply, toFloat: string -> Option<real>): (r: Step)
    ensures r.Skip? <==> !Tracked(rec)
    ensures !r.Skip? ==> r.acts == [Lookup(rec.uid.value)]
    // Only a day-58 step at or above the target survives its user.
    ensures r.Emit? <==> job == Day58 && Tracked(rec)
                         && VolumeAmount(lookup(rec.uid.value), toFloat).Some?
                         && VolumeAmount(lookup(rec.uid.value), toFloat).value >= MONTH2_TARGET
  {
    if !Tracked(rec) then Skip
    else
      var uid := rec.uid.value;
      match job
      case Day58 =>
        (match VolumeAmount(lookup(uid), toFloat)
         case Some(x) => if x < MONTH2_TARGET then Abort([Lookup(uid)]) else Emit([Lookup(uid)])
         case None => Abort([Lookup(uid)]))
      case _ => Abort([Lookup(uid)])
  }

  /** One firing of `job` as written: each user contributes at most its lookup. */
  function TraceAsWritten(job: Job, order: seq<UserId>, db: map<UserId, Record>,
                          lookup: string -> AffiliateReply, toFloat: string -> Option<real>): (r: seq<Action>)
    requires Covers(order, db)
    ensures |r| <= |order|
  {
    if order == [] then []
    else
      match UserStepAsWritten(job, db[order[0]], lookup, toFloat)
      case Skip => TraceAsWritten(job, order[1..], db, lookup, toFloat)
      case Emit(acts) => acts + TraceAsWritten(job, order[1..], db, lookup, toFloat)
      case Abort(acts) => acts
  }

  /** As written, no job ever messages or bans anyone: a firing performs lookups only. */
  lemma {:induction false} AsWrittenOnlyLookups(job: Job, order: seq<UserId>, db: map<UserId, Record>,
                                                lookup: string -> AffiliateReply,
                                                toFloat: string -> Option<real>, u: UserId)
    requires Covers(order, db)
    ensures forall a :: a in TraceAsWritten(job, order, db, lookup, toFloat) ==> a.Lookup?
    ensures For(u, TraceAsWritten(job, order, db, lookup, toFloat)) == []
  {
    if order != [] {
      var acts := TraceAsWritten(job, order, db, lookup, toFloat);
      var step := UserStepAsWritten(job, db[order[0]], lookup, toFloat);
      var rest := TraceAsWritten(job, order[1..], db, lookup, toFloat);
      AsWrittenOnlyLookups(job, order[1..], db, lookup, toFloat, u);
      if step.Emit? {
        assert acts == step.acts + rest;
        ForConcat(u, step.acts, rest);
      }
    }
  }

  /**
   * As written, the day-10, day-20, day-30 and weekly jobs make at most one
   * lookup: that of the first tracked user, after which they raise.
   */
  lemma {:induction false} AsWrittenOneLookup(job: Job, order: seq<UserId>, db: map<UserId, Record>,
                                              lookup: string -> AffiliateReply,
                                              toFloat: string -> Option<real>)
    requires job != Day58
    requires Covers(order, db)
    ensures |TraceAsWritten(job, order, db, lookup, toFloat)| <= 1
  {
    if order != [] && !Tracked(db[order[0]]) {
      AsWrittenOneLookup(job, order[1..], db, lookup, toFloat);
    }
  }

  /**
   * Two tracked users, the first at 60000 and the second at 10: the intended
   * day-58 job looks both up and warns and bans the second; the written one
   * looks both up and raises at the second user's warning.
   */
  lemma Day58AsWrittenNeverBans()
    ensures var db := map[7 := Record(Some(0), Uid("1"), Some(0)), 8 := Record(Some(0), Uid("2"), Some(0))];
            var lookup := (uid: string) => AffiliateReply(Some("0"), Some([Invitee(Some(if uid == "1" then "60000" else "10"))]));
            var toFloat := (s: string) => if s == "60000" then Some(60000.0) else Some(10.0);
            Trace(Day58, [7, 8], db, lookup, toFloat)
              == [Lookup("1"), Lookup("2"), Send(8, Month2Short(10.0)), Ban(8)]
            && TraceAsWritten(Day58, [7, 8], db, lookup, toFloat) == [Lookup("1"), Lookup("2")]
  {
    var db := map[7 := Record(Some(0), Uid("1"), Some(0)), 8 := Record(Some(0), Uid("2"), Some(0))];
    var lookup := (uid: string) => AffiliateReply(Some("0"), Some([Invitee(Some(if uid == "1" then "60000" else "10"))]));
    var toFloat := (s: string) => if s == "60000" then Some(60000.0) else Some(10.0);
    var order: seq<UserId> := [7, 8];
    assert order[1..] == [8] && order[1..][1..] == [];
    assert VolumeAmount(lookup("1"), toFloat) == Some(60000.0);
    assert VolumeAmount(lookup("2"), toFloat) == Some(10.0);
  }
}
