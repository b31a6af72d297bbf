/** The recognition write-back (updateWardrobeLabelText) as a function of the
    closet repository's state: the stored closets and the log of writes that
    reached it. The service method of the same name is proved to follow it,
    and the receive loop is specified by iterating it. */
module LabelText {
  import opened Definitions
  import opened ClosetSeq
  import opened FileKeys

  /** The closet repository: its closets and every Add/Update applied to it. */
  datatype Db = Db(closets: map<string, WardrobeCloset>, writes: seq<DbWrite>)

  datatype StepResult = StepResult(outcome: Outcome, db: Db)

  /** Look the closet up (any lookup error is returned, wrapped), refuse an
      empty wardrobe sequence, set labelText on the matching entries, and
      replace the closet with Update. A failed Update changes nothing. */
  function LabelTextStep(db: Db, user: string, id: string, text: string, faults: Faults): (r: StepResult) {
    match Lookup(db.closets, user, faults)
    case Failure(e) => StepResult(Fail(e), db)
    case Success(wc) =>
      if |wc.wardrobes| == 0 then StepResult(Fail(EmptyCloset), db)
      else
        var updated := wc.(wardrobes := WithLabelText(wc.wardrobes, id, text));
        match faults.persist
        case Some(e) => StepResult(Fail(e), db)
        case None => StepResult(Pass, Db(db.closets[user := updated], db.writes + [Update(user, updated)]))
  }

  /** The write-back fails exactly on a failed lookup (UserNotFound for a
      missing user), an empty wardrobe sequence or a failed Update; on failure
      nothing is written. */
  lemma LabelTextFailures(db: Db, user: string, id: string, text: string, faults: Faults)
    ensures var r := LabelTextStep(db, user, id, text, faults);
            r.outcome.Fail? <==>
              (Lookup(db.closets, user, faults).Failure? ||
               |db.closets[user].wardrobes| == 0 || faults.persist.Some?)
    ensures var r := LabelTextStep(db, user, id, text, faults);
            r.outcome.Fail? ==> r.db == db
    ensures faults.get == None && user !in db.closets ==>
              LabelTextStep(db, user, id, text, faults).outcome == Fail(UserNotFound(user))
    ensures faults.get == None && user in db.closets && |db.closets[user].wardrobes| == 0 ==>
              LabelTextStep(db, user, id, text, faults).outcome == Fail(EmptyCloset)
  {
  }

  /** On success exactly one Update is written, for this user; only the
      matching entries change, and in them only labelText; length, order,
      outfits and every other user's closet are kept. */
  lemma LabelTextSuccess(db: Db, user: string, id: string, text: string, faults: Faults)
    requires LabelTextStep(db, user, id, text, faults).outcome == Pass
    ensures var r := LabelTextStep(db, user, id, text, faults);
            user in db.closets && user in r.db.closets &&
            var before, after := db.closets[user], r.db.closets[user];
            && r.db.closets == db.closets[user := after]
            && r.db.writes == db.writes + [Update(user, after)]
            && after.user == before.user && after.outfits == before.outfits
            && |after.wardrobes| == |before.wardrobes|
            && (forall k :: 0 <= k < |before.wardrobes| ==>
                  after.wardrobes[k] == if before.wardrobes[k].identifier == id
                                        then before.wardrobes[k].(labelText := text)
                                        else before.wardrobes[k])
  {
  }

  /** A write-back for an identifier no entry carries still succeeds and
      rewrites the closet unchanged. */
  lemma LabelTextUnmatched(db: Db, user: string, id: string, text: string)
    requires user in db.closets && |db.closets[user].wardrobes| > 0
    requires forall w :: w in db.closets[user].wardrobes ==> w.identifier != id
    ensures LabelTextStep(db, user, id, text, NoFaults) ==
              StepResult(Pass, Db(db.closets, db.writes + [Update(user, db.closets[user])]))
  {
    var wc := db.closets[user];
    var updated := wc.(wardrobes := WithLabelText(wc.wardrobes, id, text));
    assert updated.wardrobes == wc.wardrobes;
    assert db.closets[user := updated] == db.closets;
  }

  /** The write-back keeps every entry's file keys, so it preserves the
      invariant that they are derived from owner and identifier. */
  lemma LabelTextKeepsKeys(digest: string -> string, db: Db, user: string, id: string, text: string, faults: Faults)
    requires KeysDerived(digest, db.closets)
    ensures KeysDerived(digest, LabelTextStep(db, user, id, text, faults).db.closets)
  {
    var r := LabelTextStep(db, user, id, text, faults);
    if r.outcome == Pass {
      var cs := r.db.closets;
      forall u, w | u in cs && w in cs[u].wardrobes
        ensures w.mainFile == ImageFileName(digest, u, w.identifier)
        ensures w.labelFile == LabelFileName(digest, u, w.identifier)
      {
        if u == user {
          WithLabelTextKeepsKeys(db.closets[user].wardrobes, id, text, w);
        }
      }
    }
  }
}
