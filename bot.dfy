/**
 * The bot's state and its three entry points: the join-request handler,
 * the private-message handler and the body shared by the scheduled jobs.
 * `user_db` is a Python dictionary; `order` keeps its insertion order,
 * which is the order the jobs visit users in.
 */
module Bot {
  import opened Optional
  import opened UserDb
  import opened Admission
  import Jobs

  class VipBot {
    /** `user_db`: the record kept for each user id. */
    var users: map<UserId, Record>
    /** The keys of `user_db` in insertion order. */
    var order: seq<UserId>

    ghost predicate Valid()
      reads this
    {
      Jobs.NoDuplicates(order)
      && (forall u :: u in users <==> u in order)
      && (forall u :: u in users ==> WellFormed(users[u]))
    }

    /** Every user in the visiting order has a record. */
    lemma CoversUsers()
      requires Valid()
      ensures Jobs.Covers(order, users)
    {
      forall i | 0 <= i < |order|
        ensures order[i] in users
      {
        var u := order[i];
        assert u in order;
        assert u in users <==> u in order;
      }
    }

    /** The bot starts with an empty `user_db`. */
    constructor()
      ensures Valid()
      ensures users == map[] && order == []
    {
      users := map[];
      order := [];
    }

    /**
     * `on_join_request`: stamp the applicant's record with the request time
     * (creating it if needed) and ask them, in private, for their UID.
     */
    method OnJoinRequest(user: UserId, now: Instant) returns (acts: seq<Action>)
      requires Valid()
      modifies this
      ensures Valid()
      ensures users == old(users)[user := JoinRecord(old(users), user, now)]
      ensures order == if user in old(users) then old(order) else old(order) + [user]
      ensures acts == [Send(user, AskForUid)]
      // The applicant may now send a UID; nobody else's record changes.
      ensures Requested(users, user)
      ensures forall v :: v in old(users) && v != user ==> v in users && users[v] == old(users)[v]
    {
      var rec: Record;
      if user in users {
        rec := users[user].(requestedAt := Some(now));
      } else {
        rec := Record(Some(now), NoKey, None);
        order := order + [user];
      }
      users := users[user := rec];
      acts := [Send(user, AskForUid)];
    }

    /**
     * `handle_private`: act on a private `text` from `user`; `lookup` is the
     * affiliate-detail call, made at most once and only on a numeric text.
     */
    method HandlePrivate(user: UserId, text: string, now: Instant,
                         lookup: string -> AffiliateReply) returns (acts: seq<Action>)
      requires Valid()
      modifies this
      ensures Valid()
      ensures var o := Decide(old(users), user, Strip(text), lookup(Strip(text)));
              acts == o.acts && users == Apply(old(users), user, o.admitted, now)
      ensures order == old(order)
    {
      var done, admitted := Admission.Respond(users, user, text, lookup);
      acts := done;
      if admitted.Some? {
        users := users[user := users[user].(uid := admitted.value, ingreso := Some(now))];
      }
    }

    /**
     * One firing of `job` as the source evidently intends it: visit `user_db`
     * in insertion order, skip users without a UID string, look the UID up
     * and message (and on day 58 ban) the user; an exception ends the loop.
     */
    method RunJob(job: Job, lookup: string -> AffiliateReply, toFloat: string -> Option<real>)
      returns (acts: seq<Action>)
      requires Valid()
      ensures Jobs.Covers(order, users)
      ensures acts == Jobs.Trace(job, order, users, lookup, toFloat)
    {
      CoversUsers();
      acts := Jobs.VisitAll(job, order, users, lookup, toFloat);
    }
  }
}
