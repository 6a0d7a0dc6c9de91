/**
 * The admission controller: `on_join_request` opens a record, and
 * `handle_private` checks a private text in a fixed order (join request on
 * record, bypass code, numeric form, affiliate lookup) and either approves
 * and stamps the sender's record or replies and changes nothing.
 */
module Admission {
  import opened Optional
  import opened Decimal
  import opened UserDb

  /** The secret code that admits without an affiliate lookup. */
  const BYPASS_CODE := "00000000010101010"

  /** Python's `str.isspace` on one character. */
  predicate IsSpace(c: char) {
    c == ' ' || '\t' <= c <= '\r' || '\U{1C}' <= c <= '\U{1F}' || c == '\U{85}' || c == '\U{A0}'
    || c == '\U{1680}' || '\U{2000}' <= c <= '\U{200A}' || c == '\U{2028}' || c == '\U{2029}'
    || c == '\U{202F}' || c == '\U{205F}' || c == '\U{3000}'
  }

  /** `s.lstrip()`. */
  function TrimStart(s: string): (r: string)
    ensures |r| <= |s|
  {
    if s != [] && IsSpace(s[0]) then TrimStart(s[1..]) else s
  }

  /** `s.lstrip()` is the longest suffix of `s` that does not start with whitespace. */
  lemma {:induction false} TrimStartMeaning(s: string)
    ensures var r := TrimStart(s);
            r == s[|s| - |r|..] && (r == [] || !IsSpace(r[0]))
            && forall i :: 0 <= i < |s| - |r| ==> IsSpace(s[i])
  {
    if s != [] && IsSpace(s[0]) {
      TrimStartMeaning(s[1..]);
      var r := TrimStart(s);
      forall i | 0 <= i < |s| - |r|
        ensures IsSpace(s[i])
      {
        if i > 0 {
          assert s[i] == s[1..][i - 1];
        }
      }
    }
  }

  /** `s.rstrip()`. */
  function TrimEnd(s: string): (r: string)
    ensures |r| <= |s|
  {
    if s != [] && IsSpace(s[|s| - 1]) then TrimEnd(s[..|s| - 1]) else s
  }

  /** `s.rstrip()` is the longest prefix of `s` that does not end with whitespace. */
  lemma {:induction false} TrimEndMeaning(s: string)
    ensures var r := TrimEnd(s);
            r == s[..|r|] && (r == [] || !IsSpace(r[|r| - 1]))
            && forall i :: |r| <= i < |s| ==> IsSpace(s[i])
  {
    if s != [] && IsSpace(s[|s| - 1]) {
      var p := s[..|s| - 1];
      TrimEndMeaning(p);
      var r := TrimEnd(s);
      assert r == p[..|r|];
      forall i | |r| <= i < |s|
        ensures IsSpace(s[i])
      {
        if i < |s| - 1 {
          assert s[i] == p[i];
        }
      }
    }
  }

  /** `s.strip()`: `s` without its leading and trailing whitespace. */
  function Strip(s: string): (r: string)
    ensures |r| <= |s|
    // The stripped text neither starts nor ends with whitespace.
    ensures r == [] || (!IsSpace(r[0]) && !IsSpace(r[|r| - 1]))
  {
    var t := TrimStart(s);
    TrimStartMeaning(s);
    TrimEndMeaning(t);
    var r := TrimEnd(t);
    assert r == [] || r[0] == t[0];
    r
  }

  /** The stripped text is the slice of `s` between its leading and trailing whitespace. */
  lemma StripSlice(s: string)
    ensures var r := Strip(s);
            var k := |s| - |TrimStart(s)|;
            k + |r| <= |s| && r == s[k..k + |r|]
            && (forall i :: 0 <= i < k ==> IsSpace(s[i]))
            && (forall i :: k + |r| <= i < |s| ==> IsSpace(s[i]))
  {
    TrimStartMeaning(s);
    TrimEndMeaning(TrimStart(s));
    SliceOfSuffix(s, TrimStart(s), Strip(s));
  }

  lemma SliceOfSuffix(s: string, t: string, r: string)
    requires |t| <= |s| && t == s[|s| - |t|..]
    requires |r| <= |t| && r == t[..|r|]
    requires forall i :: |r| <= i < |t| ==> IsSpace(t[i])
    ensures var k := |s| - |t|;
            r == s[k..k + |r|] && forall i :: k + |r| <= i < |s| ==> IsSpace(s[i])
  {
    var k := |s| - |t|;
    forall i | k + |r| <= i < |s|
      ensures IsSpace(s[i])
    {
      assert s[i] == t[i - k];
    }
  }

  /** Stripping twice strips nothing more. */
  lemma StripIdempotent(s: string)
    ensures Strip(Strip(s)) == Strip(s)
  {
    var r := Strip(s);
    TrimStartMeaning(s);
    TrimEndMeaning(TrimStart(s));
    assert TrimStart(r) == r;
    assert TrimEnd(r) == r;
  }

  /** `text.isnumeric()`, read as: non-empty and all ASCII decimal digits. */
  predicate IsNumeric(s: string) {
    |s| > 0 && AllDigits(s)
  }

  /**
   * A numeric text is the zero-padded decimal of its value, and `strip`
   * leaves it as it is: the UID looked up is the digits as typed.
   */
  lemma NumericText(s: string)
    requires IsNumeric(s)
    ensures Strip(s) == s
    ensures Value(s) < Pow10(|s|) && Pad(Value(s), |s|) == s
  {
    PadOfValue(s);
    DigitsUnstripped(s);
  }

  lemma DigitsUnstripped(s: string)
    requires |s| > 0 && IsDigit(s[0]) && IsDigit(s[|s| - 1])
    ensures Strip(s) == s
  {
    assert TrimStart(s) == s;
    assert TrimEnd(s) == s;
  }

  /** The bypass code is itself numeric: only the order of the checks keeps it from a lookup. */
  lemma BypassCodeIsNumeric()
    ensures IsNumeric(BYPASS_CODE)
  {
  }

  /** `user_id in user_db and "requested_at" in user_db[user_id]`. */
  predicate Requested(db: map<UserId, Record>, user: UserId) {
    user in db && db[user].requestedAt.Some?
  }

  /** `resp.get("code") == "0" and resp.get("data")` (a non-empty list). */
  predicate Accepted(reply: AffiliateReply) {
    reply.AffiliateReply? && reply.code == Some("0") && reply.data.Some? && |reply.data.value| > 0
  }

  /** `user_db.setdefault(user_id, {})["requested_at"] = now`, as the new record. */
  function JoinRecord(db: map<UserId, Record>, user: UserId, now: Instant): (r: Record)
    ensures r.requestedAt == Some(now)
    ensures user in db ==> r.uid == db[user].uid && r.ingreso == db[user].ingreso
    ensures user !in db ==> r.uid == NoKey && r.ingreso == None
  {
    if user in db then db[user].(requestedAt := Some(now)) else Record(Some(now), NoKey, None)
  }

  /**
   * The result of one private text: the actions performed, and the value
   * written to the sender's `uid` when the sender was admitted (`ingreso`
   * is written with it).
   */
  datatype Outcome = Outcome(acts: seq<Action>, admitted: Option<UidField>)

  /**
   * `handle_private` on the message `t` from `user`, already stripped of
   * surrounding whitespace, where `reply` is what the affiliate lookup of `t`
   * returns if it is made.
   */
  function Decide(db: map<UserId, Record>, user: UserId, t: string,
                  reply: AffiliateReply): (o: Outcome)
    // Only an admission approves, and every admission approves the sender.
    ensures Approve(user) in o.acts <==> o.admitted.Some?
    ensures forall a :: a in o.acts ==> a.Lookup? || Addressee(a) == Some(user)
    // Nobody is admitted without a join request on record.
    ensures o.admitted.Some? ==> Requested(db, user)
    // The bypass code admits with `uid = None`, and only it does.
    ensures o.admitted == Some(Null) <==> Requested(db, user) && t == BYPASS_CODE
    ensures o.admitted.Some? ==> o.admitted.value != NoKey
  {
    if !Requested(db, user) then
      Outcome([Reply(user, NotRequested)], None)
    else if t == BYPASS_CODE then
      Outcome([Approve(user), Reply(user, BypassWelcome), GroupWelcome(user)], Some(Null))
    else if !IsNumeric(t) then
      Outcome([Reply(user, NotNumeric)], None)
    else if reply.Raised? then
      Outcome([Lookup(t)], None)
    else if !Accepted(reply) then
      Outcome([Lookup(t), Reply(user, NotReferred)], None)
    else
      Outcome([Lookup(t), Approve(user), Reply(user, Verified(VolumeText(reply).value)),
               GroupWelcome(user)], Some(Uid(t)))
  }

  /**
   * The decision `handle_private` takes on `text` from `user` given the
   * records `db`: the actions it performs and, when it admits the user, the
   * value it stores under `uid`.
   */
  method Respond(db: map<UserId, Record>, user: UserId, text: string,
                 lookup: string -> AffiliateReply) returns (acts: seq<Action>, admitted: Option<UidField>)
    ensures Outcome(acts, admitted) == Decide(db, user, Strip(text), lookup(Strip(text)))
  {
    var t := Strip(text);
    admitted := None;
    if !(user in db && db[user].requestedAt.Some?) {
      acts := [Reply(user, NotRequested)];
      return;
    }
    if t == BYPASS_CODE {
      acts := [Approve(user), Reply(user, BypassWelcome), GroupWelcome(user)];
      admitted := Some(Null);
      return;
    }
    if !IsNumeric(t) {
      acts := [Reply(user, NotNumeric)];
      return;
    }
    var reply := lookup(t);
    acts := [Lookup(t)];
    if reply.Raised? {
      return;
    }
    if !Accepted(reply) {
      acts := acts + [Reply(user, NotReferred)];
      return;
    }
    var shown := VolumeText(reply).value;
    acts := acts + [Approve(user), Reply(user, Verified(shown)), GroupWelcome(user)];
    admitted := Some(Uid(t));
  }

  /**
   * A UID is stored exactly when the lookup of that numeric text accepted
   * it, and a lookup is made only for a numeric text other than the bypass
   * code, at most once and before anything else.
   */
  lemma DecideLookup(db: map<UserId, Record>, user: UserId, t: string, reply: AffiliateReply)
    ensures var o := Decide(db, user, t, reply);
            (o.admitted.Some? && o.admitted.value.Uid?)
              <==> (Requested(db, user) && t != BYPASS_CODE
                    && IsNumeric(t) && Accepted(reply))
    ensures var o := Decide(db, user, t, reply);
            o.admitted.Some? && o.admitted.value.Uid? ==> o.admitted.value.value == t
    ensures var o := Decide(db, user, t, reply);
            forall i :: 0 <= i < |o.acts| && o.acts[i].Lookup? ==>
              i == 0 && o.acts[i].uid == t && Requested(db, user)
              && t != BYPASS_CODE && IsNumeric(t)
  {
    if !Requested(db, user) {
      UnrequestedRefused(db, user, t, reply);
    } else if t == BYPASS_CODE {
      BypassAdmits(db, user, t, reply);
    } else if !IsNumeric(t) {
      NonNumericRefused(db, user, t, reply);
    } else if reply.Raised? {
      LookupRaised(db, user, t, reply);
    } else if !Accepted(reply) {
      LookupRefused(db, user, t, reply);
    } else {
      LookupAdmits(db, user, t, reply);
    }
  }

  /** The records after a private text: the sender's stamped if admitted, nothing else. */
  function Apply(db: map<UserId, Record>, user: UserId, admitted: Option<UidField>,
                 now: Instant): (db': map<UserId, Record>)
    requires admitted.Some? ==> user in db
    ensures db'.Keys == db.Keys
    ensures forall v :: v in db && v != user ==> db'[v] == db[v]
    ensures user in db && admitted.None? ==> db'[user] == db[user]
    ensures user in db && admitted.Some? ==>
              db'[user] == db[user].(uid := admitted.value, ingreso := Some(now))
  {
    if admitted.Some? then db[user := db[user].(uid := admitted.value, ingreso := Some(now))]
    else db
  }

  // ---------------------------------------------------------------------------
  // The admission paths, one lemma each
  // ---------------------------------------------------------------------------

  /** Without a join request on record the text is refused, whatever it says. */
  lemma UnrequestedRefused(db: map<UserId, Record>, user: UserId, t: string,
                           reply: AffiliateReply)
    requires !Requested(db, user)
    ensures Decide(db, user, t, reply) == Outcome([Reply(user, NotRequested)], None)
  {
  }

  /** A text that is neither the code nor numeric (the empty text too) gets a format reply only. */
  lemma NonNumericRefused(db: map<UserId, Record>, user: UserId, t: string,
                          reply: AffiliateReply)
    requires Requested(db, user) && t != BYPASS_CODE && !IsNumeric(t)
    ensures Decide(db, user, t, reply) == Outcome([Reply(user, NotNumeric)], None)
  {
  }

  /** The bypass code approves and welcomes without any lookup. */
  lemma BypassAdmits(db: map<UserId, Record>, user: UserId, t: string,
                     reply: AffiliateReply)
    requires Requested(db, user) && t == BYPASS_CODE
    ensures Decide(db, user, t, reply)
              == Outcome([Approve(user), Reply(user, BypassWelcome), GroupWelcome(user)], Some(Null))
  {
  }

  /** When the lookup itself raises, the handler stops after it without a reply. */
  lemma LookupRaised(db: map<UserId, Record>, user: UserId, t: string,
                     reply: AffiliateReply)
    requires Requested(db, user) && t != BYPASS_CODE && IsNumeric(t)
    requires reply.Raised?
    ensures Decide(db, user, t, reply) == Outcome([Lookup(t)], None)
  {
  }

  /** A lookup that does not confirm the UID leads to a rejection reply only. */
  lemma LookupRefused(db: map<UserId, Record>, user: UserId, t: string,
                      reply: AffiliateReply)
    requires Requested(db, user) && t != BYPASS_CODE && IsNumeric(t)
    requires reply.AffiliateReply? && !Accepted(reply)
    ensures Decide(db, user, t, reply)
              == Outcome([Lookup(t), Reply(user, NotReferred)], None)
  {
  }

  /** An accepted lookup approves, welcomes in private with the volume, then in the group. */
  lemma LookupAdmits(db: map<UserId, Record>, user: UserId, t: string,
                     reply: AffiliateReply)
    requires Requested(db, user) && t != BYPASS_CODE && IsNumeric(t)
    requires Accepted(reply)
    ensures var vol := reply.data.value[0].volMonth;
            Decide(db, user, t, reply)
              == Outcome([Lookup(t), Approve(user),
                          Reply(user, Verified(if vol.None? || vol.value == "" then "0" else vol.value)),
                          GroupWelcome(user)],
                         Some(Uid(t)))
  {
  }
}
