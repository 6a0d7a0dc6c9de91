/**
 * The bot's state and vocabulary: the in-memory `user_db` records, the
 * affiliate lookup replies it reads, and the outward actions (Telegram calls
 * and affiliate lookups) that its handlers and jobs perform, in order.
 */
module UserDb {
  import opened Optional

  /** A Telegram user id. */
  type UserId = int

  /** A `datetime.now(timezone.utc)` reading, in microseconds since the Unix epoch. */
  type Instant = int

  /**
   * The `"uid"` entry of a record: no such key, the value `None` (admitted
   * with the bypass code), or the affiliate UID that was verified.
   */
  datatype UidField = NoKey | Null | Uid(value: string)

  /** One value of `user_db`: its `requested_at`, `uid` and `ingreso` entries. */
  datatype Record = Record(requestedAt: Option<Instant>, uid: UidField, ingreso: Option<Instant>)

  /** A record the scheduled jobs act on: it holds a UID string. */
  predicate Tracked(r: Record) {
    r.uid.Uid?
  }

  /**
   * The invariant every record of `user_db` keeps: it was opened by a join
   * request, and `uid` and `ingreso` are written together.
   */
  predicate WellFormed(r: Record) {
    r.requestedAt.Some? && (r.ingreso.Some? <==> !r.uid.NoKey?)
  }

  /** One element of the `data` array of the invitee-detail reply. */
  datatype Invitee = Invitee(volMonth: Option<string>)

  /**
   * The decoded reply to `okx_affiliate_detail(uid)`: `Raised` when the call
   * itself raised (network error, a body that is not JSON); otherwise its
   * `code` and `data` entries, `None` where the key is missing.
   */
  datatype AffiliateReply = Raised | AffiliateReply(code: Option<string>, data: Option<seq<Invitee>>)

  /** `reply["data"][0].get("volMonth") or "0"`; `None` where that expression raises. */
  function VolumeText(reply: AffiliateReply): (v: Option<string>)
    ensures v.Some? <==> reply.AffiliateReply? && reply.data.Some? && |reply.data.value| > 0
    ensures v.Some? ==> v.value != ""
  {
    if reply.AffiliateReply? && reply.data.Some? && |reply.data.value| > 0 then
      var vol := reply.data.value[0].volMonth;
      Some(if vol.None? || vol.value == "" then "0" else vol.value)
    else
      None
  }

  /** The scheduled jobs, one per cron entry. */
  datatype Job = Day10 | Day20 | Day30 | Day58 | Weekly

  /** What the bot writes to a user with `send_message` (the wording is not modelled). */
  datatype Notice =
    | AskForUid                                // the join-request prompt
    | VolumeReport(job: Job, shown: string)    // days 10 and 20, and the weekly report
    | Month1Short(volume: real)                // day 30, below 25000
    | Month1Met(volume: real)                  // day 30, at least 25000
    | Month2Short(volume: real)                // day 58, below 50000, before the ban

  /** What the bot answers to a private text with `reply_text`. */
  datatype ReplyText =
    | NotRequested        // no join request on record
    | BypassWelcome       // admitted with the bypass code
    | NotNumeric          // neither the bypass code nor a number
    | NotReferred         // the lookup did not confirm the UID
    | Verified(volume: string)

  /** One outward effect, in the order the source performs them. */
  datatype Action =
    | Lookup(uid: string)                  // okx_affiliate_detail(uid)
    | Reply(user: UserId, text: ReplyText)
    | Send(user: UserId, notice: Notice)
    | Approve(user: UserId)                // approve_chat_join_request in the VIP chat
    | GroupWelcome(user: UserId)           // welcome posted in the VIP chat, mentioning the user
    | Ban(user: UserId)                    // ban_chat_member in the VIP chat

  /** The user an action concerns; a lookup concerns no user. */
  function Addressee(a: Action): Option<UserId> {
    if a.Lookup? then None else Some(a.user)
  }

  /** The actions of `acts` that concern user `u`, in order. */
  function For(u: UserId, acts: seq<Action>): (r: seq<Action>)
    ensures |r| <= |acts|
  {
    if acts == [] then []
    else if Addressee(acts[0]) == Some(u) then [acts[0]] + For(u, acts[1..])
    else For(u, acts[1..])
  }

  /** `For` keeps exactly the actions addressed to `u`. */
  lemma {:induction false} ForMembers(u: UserId, acts: seq<Action>)
    ensures forall a :: a in For(u, acts) <==> a in acts && Addressee(a) == Some(u)
  {
    if acts != [] {
      ForMembers(u, acts[1..]);
      assert forall a :: a in acts <==> a == acts[0] || a in acts[1..];
    }
  }

  /** Actions that never name `u` leave nothing for `u`. */
  lemma {:induction false} ForNone(u: UserId, acts: seq<Action>)
    requires forall i :: 0 <= i < |acts| ==> Addressee(acts[i]) != Some(u)
    ensures For(u, acts) == []
  {
    if acts != [] {
      ForNone(u, acts[1..]);
    }
  }

  lemma {:induction false} ForConcat(u: UserId, a: seq<Action>, b: seq<Action>)
    ensures For(u, a + b) == For(u, a) + For(u, b)
  {
    if a == [] {
      assert a + b == b;
    } else {
      var c := a + b;
      assert c[0] == a[0] && c[1..] == a[1..] + b;
      ForConcat(u, a[1..], b);
      if Addressee(a[0]) == Some(u) {
        assert For(u, c) == [a[0]] + (For(u, a[1..]) + For(u, b));
        assert For(u, a) == [a[0]] + For(u, a[1..]);
      } else {
        assert For(u, c) == For(u, a[1..]) + For(u, b);
      }
    }
  }
}
