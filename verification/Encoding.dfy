/** How the typed ledger is laid out under flat string keys as Redis hashes, sets, sorted sets and strings. */
module Encoding {
  import opened Common
  import opened Ledger
  import opened Keys
  import Decimal

  datatype Value =
    | Hash(fields: map<string, string>)
    | Members(members: set<string>)
    | Scored(scores: map<string, int>)
    | Text(text: string, expiry: int)

  type Keyspace = map<string, Value>

  function Get(keys: Keyspace, name: string): Option<Value> {
    if name in keys then Some(keys[name]) else None
  }

  /** Writing a value under a name; Redis keeps no empty aggregates, so `None` removes the name. */
  function Place(keys: Keyspace, name: string, v: Option<Value>): Keyspace {
    if v.Some? then keys[name := v.value] else keys - {name}
  }

  function HashOrNone(h: map<string, string>): Option<Value> {
    if h == map[] then None else Some(Hash(h))
  }

  function MembersOrNone(m: set<string>): Option<Value> {
    if m == {} then None else Some(Members(m))
  }

  function ScoredOrNone(z: map<string, int>): Option<Value> {
    if z == map[] then None else Some(Scored(z))
  }

  function BoolText(b: bool): string {
    if b then "true" else "false"
  }

  function MetaHash(id: PollId, m: Meta): map<string, string> {
    match m
    case Full(question, createdBy, updatedBy, createdAt, expiresAt, isClosed, isPublic) =>
      map["id" := id, "question" := question, "created_by" := createdBy, "updated_by" := updatedBy,
          "created_at" := Decimal.Print(createdAt), "expires_at" := Decimal.Print(expiresAt),
          "is_closed" := BoolText(isClosed), "is_public" := BoolText(isPublic)]
    case Stub(updatedBy) =>
      map["is_closed" := "true", "updated_by" := updatedBy]
  }

  /** Options under their positions. */
  function OptionHash(options: seq<string>): map<string, string> {
    if options == [] then map[]
    else
      var n := |options| - 1;
      OptionHash(options[..n])[Decimal.Print(n) := options[n]]
  }

  function OptionsOf(options: map<PollId, seq<string>>, id: PollId): seq<string> {
    if id in options then options[id] else []
  }

  function TallyHash(tally: map<(PollId, string), int>, id: PollId): map<string, string> {
    map q | q in tally && q.0 == id :: q.1 := Decimal.Print(tally[q])
  }

  function VoterSet(voters: set<(PollId, UserId)>, id: PollId): set<string> {
    set v | v in voters && v.0 == id :: v.1
  }

  function HistoryHash(history: map<(PollId, UserId), string>, user: UserId): map<string, string> {
    map v | v in history && v.1 == user :: v.0 := history[v]
  }

  function CreatedScores(created: map<(UserId, PollId), int>, user: UserId): map<string, int> {
    map k | k in created && k.0 == user :: k.1 := created[k]
  }

  /** What the ledger stores under a key. */
  function View(db: Db, k: Key): Option<Value> {
    match k
    case PollsIndex => MembersOrNone(db.index)
    case PollsPublicIndex => MembersOrNone(db.publicIndex)
    case PollMeta(id) => if id in db.meta then Some(Hash(MetaHash(id, db.meta[id]))) else None
    case PollOptions(id) => HashOrNone(OptionHash(OptionsOf(db.options, id)))
    case PollVotes(id) => HashOrNone(TallyHash(db.tally, id))
    case PollVoters(id) => MembersOrNone(VoterSet(db.voters, id))
    case UserVotes(u) => HashOrNone(HistoryHash(db.history, u))
    case UserCreated(u) => ScoredOrNone(CreatedScores(db.created, u))
    case Idem(t) => if t in db.idem then Some(Text("1", db.idem[t])) else None
  }

  /** Every poll's id is free of colons. */
  ghost predicate PlainPolls(db: Db) {
    forall id :: id in db.meta ==> ColonFree(id)
  }

  /** The flat keyspace holds the ledger: under every well-formed key's name lies what the ledger stores there. */
  ghost predicate Holds(keys: Keyspace, db: Db) {
    forall k {:trigger View(db, k)} :: WellFormed(k) ==> Get(keys, Name(k)) == View(db, k)
  }

  /** Writing under one name changes nothing the ledger stores under any other key. */
  lemma PlaceHolds(keys: Keyspace, db: Db, d: Db, k: Key)
    requires Holds(keys, db) && Stored(k)
    requires forall l :: WellFormed(l) && l != k ==> View(d, l) == View(db, l)
    ensures Holds(Place(keys, Name(k), View(d, k)), d)
  {
    forall l | WellFormed(l)
      ensures Get(Place(keys, Name(k), View(d, k)), Name(l)) == View(d, l)
    {
      assert Get(keys, Name(l)) == View(db, l);
      if Name(l) == Name(k) {
        NamesDistinct(k, l);
      }
    }
  }

  // ---------- One command's change, and that it stays within its key ----------

  lemma WithMeta(keys: Keyspace, db: Db, id: PollId, m: Meta)
    requires Holds(keys, db) && ColonFree(id)
    ensures Holds(Place(keys, Name(PollMeta(id)), Some(Hash(MetaHash(id, m)))), db.(meta := db.meta[id := m]))
  {
    PlaceHolds(keys, db, db.(meta := db.meta[id := m]), PollMeta(id));
  }

  lemma WithoutMeta(keys: Keyspace, db: Db, id: PollId)
    requires Holds(keys, db) && ColonFree(id)
    ensures Holds(keys - {Name(PollMeta(id))}, db.(meta := db.meta - {id}))
  {
    PlaceHolds(keys, db, db.(meta := db.meta - {id}), PollMeta(id));
  }

  lemma WithOptions(keys: Keyspace, db: Db, id: PollId, options: seq<string>)
    requires Holds(keys, db) && ColonFree(id)
    ensures Holds(Place(keys, Name(PollOptions(id)), HashOrNone(OptionHash(options))),
                  db.(options := db.options[id := options]))
  {
    PlaceHolds(keys, db, db.(options := db.options[id := options]), PollOptions(id));
  }

  lemma WithoutOptions(keys: Keyspace, db: Db, id: PollId)
    requires Holds(keys, db) && ColonFree(id)
    ensures Holds(keys - {Name(PollOptions(id))}, db.(options := db.options - {id}))
  {
    PlaceHolds(keys, db, db.(options := db.options - {id}), PollOptions(id));
  }

  lemma NonEmptyHash(h: map<string, string>, field: string, value: string)
    ensures HashOrNone(h[field := value]) == Some(Hash(h[field := value]))
  {
    assert field in h[field := value];
  }

  lemma TallyField(tally: map<(PollId, string), int>, id: PollId, option: string)
    ensures option in TallyHash(tally, id) <==> (id, option) in tally
    ensures (id, option) in tally ==> TallyHash(tally, id)[option] == Decimal.Print(tally[(id, option)])
  {
    if (id, option) in tally {
      assert (id, option).1 in TallyHash(tally, id);
    }
  }

  lemma SameTallyHash(a: map<(PollId, string), int>, b: map<(PollId, string), int>, id: PollId)
    requires forall q: (PollId, string) :: q.0 == id ==> (q in a <==> q in b)
    requires forall q: (PollId, string) :: q.0 == id && q in a && q in b ==> a[q] == b[q]
    ensures TallyHash(a, id) == TallyHash(b, id)
  {
    forall o
      ensures o in TallyHash(a, id) <==> o in TallyHash(b, id)
      ensures o in TallyHash(a, id) ==> TallyHash(a, id)[o] == TallyHash(b, id)[o]
    {
      TallyField(a, id, o);
      TallyField(b, id, o);
    }
  }

  lemma TallySet(tally: map<(PollId, string), int>, id: PollId, option: string, n: int)
    ensures TallyHash(tally[(id, option) := n], id) == TallyHash(tally, id)[option := Decimal.Print(n)]
  {
    var a, b := TallyHash(tally[(id, option) := n], id), TallyHash(tally, id)[option := Decimal.Print(n)];
    forall o
      ensures o in a <==> o in b
      ensures o in a ==> a[o] == b[o]
    {
      TallyField(tally[(id, option) := n], id, o);
      TallyField(tally, id, o);
    }
  }

  /** Counts of other polls are out of reach of a change to one poll's counts. */
  lemma WithTally(keys: Keyspace, db: Db, id: PollId, tally: map<(PollId, string), int>)
    requires Holds(keys, db) && ColonFree(id)
    requires forall q: (PollId, string) :: q.0 != id ==> (q in tally <==> q in db.tally)
    requires forall q: (PollId, string) :: q.0 != id && q in tally && q in db.tally ==> tally[q] == db.tally[q]
    ensures Holds(Place(keys, Name(PollVotes(id)), HashOrNone(TallyHash(tally, id))), db.(tally := tally))
  {
    var d := db.(tally := tally);
    forall l | WellFormed(l) && l != PollVotes(id)
      ensures View(d, l) == View(db, l)
    {
      if l.PollVotes? {
        SameTallyHash(tally, db.tally, l.id);
      }
    }
    PlaceHolds(keys, db, d, PollVotes(id));
  }

  lemma WithCount(keys: Keyspace, db: Db, id: PollId, option: string, n: int)
    requires Holds(keys, db) && ColonFree(id)
    ensures Holds(Place(keys, Name(PollVotes(id)),
                        Some(Hash(TallyHash(db.tally, id)[option := Decimal.Print(n)]))),
                  db.(tally := db.tally[(id, option) := n]))
  {
    var tally := db.tally[(id, option) := n];
    assert TallyHash(tally, id) == TallyHash(db.tally, id)[option := Decimal.Print(n)] by {
      TallySet(db.tally, id, option, n);
    }
    NonEmptyHash(TallyHash(db.tally, id), option, Decimal.Print(n));
    WithTally(keys, db, id, tally);
  }

  lemma WithoutCounts(keys: Keyspace, db: Db, id: PollId)
    requires Holds(keys, db) && ColonFree(id)
    ensures Holds(keys - {Name(PollVotes(id))},
                  db.(tally := map q | q in db.tally && q.0 != id :: db.tally[q]))
  {
    var tally := map q | q in db.tally && q.0 != id :: db.tally[q];
    assert TallyHash(tally, id) == map[];
    WithTally(keys, db, id, tally);
  }

  /** Voters of other polls are out of reach of a change to one poll's voter set. */
  lemma WithVoters(keys: Keyspace, db: Db, id: PollId, voters: set<(PollId, UserId)>)
    requires Holds(keys, db) && ColonFree(id)
    requires forall v: (PollId, UserId) :: v.0 != id ==> (v in voters <==> v in db.voters)
    ensures Holds(Place(keys, Name(PollVoters(id)), MembersOrNone(VoterSet(voters, id))), db.(voters := voters))
  {
    var d := db.(voters := voters);
    forall l | WellFormed(l) && l != PollVoters(id)
      ensures View(d, l) == View(db, l)
    {
      if l.PollVoters? {
        assert VoterSet(voters, l.id) == VoterSet(db.voters, l.id);
      }
    }
    PlaceHolds(keys, db, d, PollVoters(id));
  }

  lemma HistoryField(history: map<(PollId, UserId), string>, user: UserId, id: PollId)
    ensures id in HistoryHash(history, user) <==> (id, user) in history
    ensures (id, user) in history ==> HistoryHash(history, user)[id] == history[(id, user)]
  {
    if (id, user) in history {
      assert (id, user).0 in HistoryHash(history, user);
    }
  }

  lemma SameHistoryHash(a: map<(PollId, UserId), string>, b: map<(PollId, UserId), string>, user: UserId)
    requires forall v: (PollId, UserId) :: v.1 == user ==> (v in a <==> v in b)
    requires forall v: (PollId, UserId) :: v.1 == user && v in a && v in b ==> a[v] == b[v]
    ensures HistoryHash(a, user) == HistoryHash(b, user)
  {
    forall id
      ensures id in HistoryHash(a, user) <==> id in HistoryHash(b, user)
      ensures id in HistoryHash(a, user) ==> HistoryHash(a, user)[id] == HistoryHash(b, user)[id]
    {
      HistoryField(a, user, id);
      HistoryField(b, user, id);
    }
  }

  /** Histories of other users are out of reach of a change to one user's history. */
  lemma WithHistory(keys: Keyspace, db: Db, user: UserId, history: map<(PollId, UserId), string>)
    requires Holds(keys, db)
    requires forall v: (PollId, UserId) :: v.1 != user ==> (v in history <==> v in db.history)
    requires forall v: (PollId, UserId) ::
               v.1 != user && v in history && v in db.history ==> history[v] == db.history[v]
    ensures Holds(Place(keys, Name(UserVotes(user)), HashOrNone(HistoryHash(history, user))), db.(history := history))
  {
    var d := db.(history := history);
    forall l | WellFormed(l) && l != UserVotes(user)
      ensures View(d, l) == View(db, l)
    {
      if l.UserVotes? {
        SameHistoryHash(history, db.history, l.user);
      }
    }
    PlaceHolds(keys, db, d, UserVotes(user));
  }

  lemma HistorySet(history: map<(PollId, UserId), string>, id: PollId, user: UserId, option: string)
    ensures HistoryHash(history[(id, user) := option], user) == HistoryHash(history, user)[id := option]
  {
    var a, b := HistoryHash(history[(id, user) := option], user), HistoryHash(history, user)[id := option];
    forall i
      ensures i in a <==> i in b
      ensures i in a ==> a[i] == b[i]
    {
      HistoryField(history[(id, user) := option], user, i);
      HistoryField(history, user, i);
    }
  }

  lemma HistoryDel(history: map<(PollId, UserId), string>, id: PollId, user: UserId)
    ensures HistoryHash(history - {(id, user)}, user) == HistoryHash(history, user) - {id}
  {
    var a, b := HistoryHash(history - {(id, user)}, user), HistoryHash(history, user) - {id};
    forall i
      ensures i in a <==> i in b
      ensures i in a ==> a[i] == b[i]
    {
      HistoryField(history - {(id, user)}, user, i);
      HistoryField(history, user, i);
    }
  }

  lemma CreatedField(created: map<(UserId, PollId), int>, user: UserId, id: PollId)
    ensures id in CreatedScores(created, user) <==> (user, id) in created
    ensures (user, id) in created ==> CreatedScores(created, user)[id] == created[(user, id)]
  {
    if (user, id) in created {
      assert (user, id).1 in CreatedScores(created, user);
    }
  }

  lemma SameCreatedScores(a: map<(UserId, PollId), int>, b: map<(UserId, PollId), int>, user: UserId)
    requires forall k: (UserId, PollId) :: k.0 == user ==> (k in a <==> k in b)
    requires forall k: (UserId, PollId) :: k.0 == user && k in a && k in b ==> a[k] == b[k]
    ensures CreatedScores(a, user) == CreatedScores(b, user)
  {
    forall id
      ensures id in CreatedScores(a, user) <==> id in CreatedScores(b, user)
      ensures id in CreatedScores(a, user) ==> CreatedScores(a, user)[id] == CreatedScores(b, user)[id]
    {
      CreatedField(a, user, id);
      CreatedField(b, user, id);
    }
  }

  lemma CreatedSet(created: map<(UserId, PollId), int>, user: UserId, id: PollId, score: int)
    ensures CreatedScores(created[(user, id) := score], user) == CreatedScores(created, user)[id := score]
  {
    var a, b := CreatedScores(created[(user, id) := score], user), CreatedScores(created, user)[id := score];
    forall i
      ensures i in a <==> i in b
      ensures i in a ==> a[i] == b[i]
    {
      CreatedField(created[(user, id) := score], user, i);
      CreatedField(created, user, i);
    }
  }

  lemma CreatedDel(created: map<(UserId, PollId), int>, user: UserId, id: PollId)
    ensures CreatedScores(created - {(user, id)}, user) == CreatedScores(created, user) - {id}
  {
    var a, b := CreatedScores(created - {(user, id)}, user), CreatedScores(created, user) - {id};
    forall i
      ensures i in a <==> i in b
      ensures i in a ==> a[i] == b[i]
    {
      CreatedField(created - {(user, id)}, user, i);
      CreatedField(created, user, i);
    }
  }

  lemma WithCreated(keys: Keyspace, db: Db, user: UserId, created: map<(UserId, PollId), int>)
    requires Holds(keys, db)
    requires forall k: (UserId, PollId) :: k.0 != user ==> (k in created <==> k in db.created)
    requires forall k: (UserId, PollId) ::
               k.0 != user && k in created && k in db.created ==> created[k] == db.created[k]
    ensures Holds(Place(keys, Name(UserCreated(user)), ScoredOrNone(CreatedScores(created, user))),
                  db.(created := created))
  {
    var d := db.(created := created);
    forall l | WellFormed(l) && l != UserCreated(user)
      ensures View(d, l) == View(db, l)
    {
      if l.UserCreated? {
        SameCreatedScores(created, db.created, l.user);
      }
    }
    PlaceHolds(keys, db, d, UserCreated(user));
  }

  lemma WithIndex(keys: Keyspace, db: Db, index: set<PollId>)
    requires Holds(keys, db)
    ensures Holds(Place(keys, Name(PollsIndex), MembersOrNone(index)), db.(index := index))
  {
    PlaceHolds(keys, db, db.(index := index), PollsIndex);
  }

  lemma WithPublicIndex(keys: Keyspace, db: Db, index: set<PollId>)
    requires Holds(keys, db)
    ensures Holds(Place(keys, Name(PollsPublicIndex), MembersOrNone(index)), db.(publicIndex := index))
  {
    PlaceHolds(keys, db, db.(publicIndex := index), PollsPublicIndex);
  }

  lemma WithIdem(keys: Keyspace, db: Db, user: UserId, key: string, expiry: int)
    requires Holds(keys, db)
    ensures Holds(Place(keys, IdemKey(user, key), Some(Text("1", expiry))),
                  db.(idem := db.idem[IdemKey(user, key) := expiry]))
  {
    IdemNameWellFormed(user, key);
    var d := db.(idem := db.idem[IdemKey(user, key) := expiry]);
    PlaceHolds(keys, db, d, Idem(IdemKey(user, key)));
  }

  // ---------- Reading back ----------

  lemma VoterMember(voters: set<(PollId, UserId)>, id: PollId, user: UserId)
    ensures user in VoterSet(voters, id) <==> (id, user) in voters
  {
    if (id, user) in voters {
      assert (id, user).1 in VoterSet(voters, id);
    }
  }

  lemma VoterSetChange(voters: set<(PollId, UserId)>, id: PollId, user: UserId)
    ensures VoterSet(voters + {(id, user)}, id) == VoterSet(voters, id) + {user}
    ensures VoterSet(voters - {(id, user)}, id) == VoterSet(voters, id) - {user}
  {
    forall u
      ensures u in VoterSet(voters + {(id, user)}, id) <==> u in VoterSet(voters, id) + {user}
      ensures u in VoterSet(voters - {(id, user)}, id) <==> u in VoterSet(voters, id) - {user}
    {
      VoterMember(voters, id, u);
      VoterMember(voters + {(id, user)}, id, u);
      VoterMember(voters - {(id, user)}, id, u);
    }
  }

  /** The field names of the first n positions. */
  ghost predicate IsPosition(field: string, n: nat) {
    exists i :: 0 <= i < n && field == Decimal.Print(i)
  }

  lemma NextPosition(n: nat)
    ensures !IsPosition(Decimal.Print(n), n)
    ensures forall f :: IsPosition(f, n + 1) <==> IsPosition(f, n) || f == Decimal.Print(n)
  {
    forall i | 0 <= i < n
      ensures Decimal.Print(n) != Decimal.Print(i)
    {
      if Decimal.Print(n) == Decimal.Print(i) {
        Decimal.PrintDistinct(n, i);
      }
    }
  }

  /** The options hash has one field per position, and no other. */
  lemma {:induction false} OptionFields(options: seq<string>)
    ensures |OptionHash(options)| == |options|
    ensures forall f :: f in OptionHash(options) <==> IsPosition(f, |options|)
  {
    if options != [] {
      var n := |options| - 1;
      OptionFields(options[..n]);
      NextPosition(n);
    }
  }

  /** Each position's field holds that position's option. */
  lemma {:induction false} OptionAt(options: seq<string>, i: nat)
    requires i < |options|
    ensures Decimal.Print(i) in OptionHash(options) && OptionHash(options)[Decimal.Print(i)] == options[i]
  {
    var n := |options| - 1;
    if i < n {
      OptionAt(options[..n], i);
      if Decimal.Print(i) == Decimal.Print(n) {
        Decimal.PrintDistinct(i, n);
      }
    }
  }
}
