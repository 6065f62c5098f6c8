/**
 Poll ids in requests. The handlers pass them on as they come, only trimmed (internal/service/service.go:119-129), and
 an id that extends a poll's id by the suffix of another of its keys takes that key for metadata
 (internal/store/redis/store.go:505-510). Such ids are outside the model's runs; this module says exactly which they
 are and what one of them does.
 */
module RequestIds {
  import opened Common
  import opened Ledger
  import opened Encoding
  import opened RedisServer
  import Decimal
  import Keys

  /** The requested id whose metadata name is the count hash of a poll. */
  function CountsAsId(id: PollId): PollId {
    id + ":votes"
  }

  lemma CountsAsIdExtends(id: PollId)
    requires Keys.ColonFree(id)
    ensures Keys.Extends(CountsAsId(id)) && !Keys.Askable(CountsAsId(id))
    ensures Keys.Name(Keys.PollMeta(CountsAsId(id))) == Keys.Name(Keys.PollVotes(id))
  {
    var q := CountsAsId(id);
    Keys.ExtendedBy(id, ":votes");
    assert q[|id|] == ':';
  }

  /** DeletePoll's DEL for a requested id. */
  function AfterDel(keys: Keyspace, id: PollId): Keyspace {
    keys - {Keys.Name(Keys.PollMeta(id)), Keys.Name(Keys.PollOptions(id)),
            Keys.Name(Keys.PollVotes(id)), Keys.Name(Keys.PollVoters(id))}
  }

  /**
   For a poll with an option "created_by" at count zero, the extending id reads as a poll created by user "0", so this
   user passes the ownership check.
   */
  lemma CountReadsAsCreator(keys: Keyspace, db: Db, id: PollId, now: int)
    requires Holds(keys, db) && Keys.ColonFree(id)
    requires (id, "created_by") in db.tally && db.tally[(id, "created_by")] == 0
    ensures var n := Keys.Name(Keys.PollMeta(CountsAsId(id)));
            && IsHash(keys, n) && HashAt(keys, n) != map[]
            && BuildPoll(HashAt(keys, n), [], map[], now).createdBy == "0"
  {
    CountsAsIdExtends(id);
    VotesLayout(keys, db, id);
    TallyField(db.tally, id, "created_by");
    assert Decimal.PrintNat(0) == "0";
  }

  /** The delete that follows wipes the poll's counts and leaves its voters and metadata. */
  lemma DeleteWipesCounts(keys: Keyspace, db: Db, id: PollId)
    requires Holds(keys, db) && Keys.ColonFree(id)
    ensures var after := AfterDel(keys, CountsAsId(id));
            && Get(after, Keys.Name(Keys.PollVotes(id))) == None
            && Get(after, Keys.Name(Keys.PollVoters(id))) == View(db, Keys.PollVoters(id))
            && Get(after, Keys.Name(Keys.PollMeta(id))) == View(db, Keys.PollMeta(id))
  {
    CountsAsIdExtends(id);
    Untouched(keys, db, id, Keys.PollVoters(id));
    Untouched(keys, db, id, Keys.PollMeta(id));
  }

  lemma Untouched(keys: Keyspace, db: Db, id: PollId, k: Keys.Key)
    requires Holds(keys, db) && Keys.ColonFree(id) && (k == Keys.PollVoters(id) || k == Keys.PollMeta(id))
    ensures Get(AfterDel(keys, CountsAsId(id)), Keys.Name(k)) == View(db, k)
  {
    OtherNames(id, k);
    assert View(db, k) == Get(keys, Keys.Name(k));
  }

  /** A poll's other keys are none of the four names the delete removes. */
  lemma OtherNames(id: PollId, k: Keys.Key)
    requires Keys.ColonFree(id) && (k == Keys.PollVoters(id) || k == Keys.PollMeta(id))
    ensures var q := CountsAsId(id);
            Keys.Name(k) !in {Keys.Name(Keys.PollMeta(q)), Keys.Name(Keys.PollOptions(q)),
                              Keys.Name(Keys.PollVotes(q)), Keys.Name(Keys.PollVoters(q))}
  {
    var q := CountsAsId(id);
    assert |Keys.Name(Keys.PollMeta(q))| == |id| + 11 && |Keys.Name(Keys.PollOptions(q))| == |id| + 19;
    assert |Keys.Name(Keys.PollVotes(q))| == |id| + 17 && |Keys.Name(Keys.PollVoters(q))| == |id| + 18;
    assert |Keys.Name(Keys.PollVoters(id))| == |id| + 12 && |Keys.Name(Keys.PollMeta(id))| == |id| + 5;
  }

  /** If the poll had a voter, what is left is no ledger whose counts agree with its voters. */
  lemma CountsDisagreeAfterwards(keys: Keyspace, db: Db, d: Db, id: PollId, user: UserId)
    requires Holds(keys, db) && Keys.ColonFree(id) && (id, user) in db.voters
    requires Holds(AfterDel(keys, CountsAsId(id)), d)
    ensures !LedgerInv(d)
  {
    DeleteWipesCounts(keys, db, id);
    var after := AfterDel(keys, CountsAsId(id));
    assert View(d, Keys.PollVoters(id)) == Get(after, Keys.Name(Keys.PollVoters(id)));
    assert View(d, Keys.PollVotes(id)) == Get(after, Keys.Name(Keys.PollVotes(id)));
    VoterMember(db.voters, id, user);
    VoterMember(d.voters, id, user);
    assert (id, user) in d.voters;
    forall option
      ensures (id, option) !in d.tally
    {
      TallyField(d.tally, id, option);
    }
  }

  // ---------- What is left is a ledger ----------

  /** The three other names the delete removes are names of ids that are nobody's, so nothing lies under them. */
  lemma NothingUnder(keys: Keyspace, db: Db, id: PollId, suffix: string)
    requires Holds(keys, db) && PlainPolls(db) && suffix in Keys.SUFFIXES && suffix != ""
    ensures "poll:" + CountsAsId(id) + suffix !in keys
  {
    var q := CountsAsId(id) + suffix;
    TwoSuffixes(id, suffix);
    NotStored(keys, db, q);
    Regrouped(CountsAsId(id), suffix);
  }

  lemma NotStored(keys: Keyspace, db: Db, id: PollId)
    requires Holds(keys, db) && PlainPolls(db) && Keys.Askable(id) && !Keys.ColonFree(id)
    ensures Keys.Name(Keys.PollMeta(id)) !in keys
  {
    MetaLayout(keys, db, id);
  }

  lemma Regrouped(id: PollId, suffix: string)
    ensures Keys.Name(Keys.PollMeta(id + suffix)) == "poll:" + id + suffix
  {
  }

  /** An id with two suffixes extends no colon-free id, and is none itself. */
  lemma TwoSuffixes(id: PollId, suffix: string)
    requires suffix in Keys.SUFFIXES && suffix != ""
    ensures Keys.Askable(CountsAsId(id) + suffix) && !Keys.ColonFree(CountsAsId(id) + suffix)
  {
    var q := CountsAsId(id) + suffix;
    assert q[|id|] == ':';
    forall x: string | x in {":options", ":votes", ":voters"}
      ensures !Keys.EndsIn(q, x)
    {
      NotBoth(id, suffix, x);
    }
  }

  lemma NotBoth(id: PollId, suffix: string, x: string)
    requires suffix in {":options", ":votes", ":voters"} && x in {":options", ":votes", ":voters"}
    ensures !Keys.EndsIn(CountsAsId(id) + suffix, x)
  {
    var q := CountsAsId(id) + suffix;
    var n := |q| - |x|;
    if suffix == x {
      assert q[..n] == CountsAsId(id) && CountsAsId(id)[|id|] == ':';
    } else {
      LastTwo(suffix, x);
      assert q[|q| - 2] == suffix[|suffix| - 2] && q[|q| - 3] == suffix[|suffix| - 3];
      assert q[n..][|x| - 2] == q[|q| - 2] && q[n..][|x| - 3] == q[|q| - 3];
    }
  }

  /** The suffixes differ in their third or second letter from the end. */
  lemma LastTwo(x: string, y: string)
    requires x in {":options", ":votes", ":voters"} && y in {":options", ":votes", ":voters"} && x != y
    ensures |x| >= 3 && |y| >= 3 && (x[|x| - 2] != y[|y| - 2] || x[|x| - 3] != y[|y| - 3])
  {
  }

  /** The ledger without one poll's counts. */
  function WithoutCountsOf(db: Db, id: PollId): Db {
    db.(tally := map q | q in db.tally && q.0 != id :: db.tally[q])
  }

  /** What the delete leaves is exactly that. */
  lemma LeavesWithoutCounts(keys: Keyspace, db: Db, id: PollId)
    requires Holds(keys, db) && PlainPolls(db) && Keys.ColonFree(id)
    ensures Holds(AfterDel(keys, CountsAsId(id)), WithoutCountsOf(db, id))
  {
    CountsAsIdExtends(id);
    NothingUnder(keys, db, id, ":options");
    NothingUnder(keys, db, id, ":votes");
    NothingUnder(keys, db, id, ":voters");
    SuffixedNames(CountsAsId(id));
    assert AfterDel(keys, CountsAsId(id)) == keys - {Keys.Name(Keys.PollVotes(id))};
    WithoutCounts(keys, db, id);
  }

  lemma SuffixedNames(id: PollId)
    ensures Keys.Name(Keys.PollOptions(id)) == "poll:" + id + ":options"
    ensures Keys.Name(Keys.PollVotes(id)) == "poll:" + id + ":votes"
    ensures Keys.Name(Keys.PollVoters(id)) == "poll:" + id + ":voters"
  {
  }

  /**
   From the request to the damage: a poll with a voter and an option "created_by" nobody chose, and user "0" asking to
   delete the id extended by ":votes". The ownership check reads "0" and passes; the DEL leaves the ledger without the
   poll's counts, its metadata, options and voters still there, and that ledger breaks the invariant.
   */
  lemma DeleteRequestDamages(keys: Keyspace, db: Db, id: PollId, user: UserId, now: int)
    requires Holds(keys, db) && LedgerInv(db) && PlainPolls(db) && Live(db, id)
    requires (id, "created_by") in db.tally && db.tally[(id, "created_by")] == 0 && (id, user) in db.voters
    ensures var n := Keys.Name(Keys.PollMeta(CountsAsId(id)));
            IsHash(keys, n) && HashAt(keys, n) != map[]
            && BuildPoll(HashAt(keys, n), [], map[], now).createdBy == "0"
    ensures var d := WithoutCountsOf(db, id);
            && Holds(AfterDel(keys, CountsAsId(id)), d)
            && Live(d, id) && d.options == db.options && d.voters == db.voters && !LedgerInv(d)
  {
    CountReadsAsCreator(keys, db, id, now);
    LeavesWithoutCounts(keys, db, id);
    CountsDisagreeAfterwards(keys, db, WithoutCountsOf(db, id), id, user);
  }
}
