/** The flat Redis key names (internal/store/redis/store.go:503-528) and why they never collide. */
module Keys {
  import opened Common

  datatype Key =
    | PollsIndex
    | PollsPublicIndex
    | PollMeta(id: PollId)
    | PollOptions(id: PollId)
    | PollVotes(id: PollId)
    | PollVoters(id: PollId)
    | UserVotes(user: UserId)
    | UserCreated(user: UserId)
    | Idem(text: string)

  predicate ColonFree(s: string) {
    ':' !in s
  }

  /** Redis text of an idempotency key: one constant when the caller sent none. */
  function IdemKey(user: UserId, key: string): string {
    if key == "" then "idem:disabled" else "idem:" + user + ":" + key
  }

  /** The name under which a key is stored. */
  function Name(k: Key): string {
    match k
    case PollsIndex => "polls:index"
    case PollsPublicIndex => "polls:public"
    case PollMeta(id) => "poll:" + id
    case PollOptions(id) => "poll:" + (id + ":options")
    case PollVotes(id) => "poll:" + (id + ":votes")
    case PollVoters(id) => "poll:" + (id + ":voters")
    case UserVotes(u) => "user:" + (u + ":votes")
    case UserCreated(u) => "user:" + (u + ":created_polls")
    case Idem(t) => t
  }

  /** The names as the design document lists them (sections 5.1 to 5.6), but for the user in an idempotency key. */
  lemma NamesAsDesigned(id: PollId, user: UserId, key: string)
    requires key != ""
    ensures Name(PollMeta(id)) == "poll:" + id && Name(PollOptions(id)) == "poll:" + (id + ":options")
    ensures Name(PollVotes(id)) == "poll:" + (id + ":votes") && Name(PollVoters(id)) == "poll:" + (id + ":voters")
    ensures Name(UserVotes(user)) == "user:" + (user + ":votes")
    ensures Name(Idem(IdemKey(user, key))) == "idem:" + user + ":" + key
  {
  }

  /** A colon-free text followed by the suffix. */
  predicate EndsIn(id: string, suffix: string) {
    |suffix| <= |id| && id[|id| - |suffix|..] == suffix && ColonFree(id[..|id| - |suffix|])
  }

  /** A requested poll id that reads as another poll's id and one of its suffixes. */
  predicate Extends(id: PollId) {
    EndsIn(id, ":options") || EndsIn(id, ":votes") || EndsIn(id, ":voters")
  }

  predicate PollFamily(k: Key) {
    k.PollMeta? || k.PollOptions? || k.PollVotes? || k.PollVoters?
  }

  /**
   Any text may be asked for as a poll id, except one that extends another. That a colon-free id extends none is
   said here as well (`AskableIff`), so that such an id is known by its characters alone.
   */
  predicate Askable(id: PollId) {
    ColonFree(id) || !Extends(id)
  }

  /** Keys under which something may be stored: created poll ids are UUIDs, so free of colons. */
  predicate Stored(k: Key) {
    (PollFamily(k) ==> ColonFree(k.id)) && (k.Idem? ==> "idem:" <= k.text)
  }

  /** Keys that may be asked for: a request's poll id is any text that does not extend another. */
  predicate WellFormed(k: Key) {
    (PollFamily(k) ==> Askable(k.id)) && (k.Idem? ==> "idem:" <= k.text)
  }

  lemma SuffixBringsColon(id: PollId, suffix: string)
    requires EndsIn(id, suffix) && suffix != "" && suffix[0] == ':'
    ensures !ColonFree(id)
  {
    assert id[|id| - |suffix|..][0] == id[|id| - |suffix|];
  }

  lemma ColonFreeIsNoExtension(id: PollId)
    requires ColonFree(id)
    ensures !Extends(id)
  {
    if EndsIn(id, ":options") {
      SuffixBringsColon(id, ":options");
    } else if EndsIn(id, ":votes") {
      SuffixBringsColon(id, ":votes");
    } else if EndsIn(id, ":voters") {
      SuffixBringsColon(id, ":voters");
    }
  }

  /** Splitting at the first colon is unambiguous. */
  lemma SplitAtColon(a: string, x: string, b: string, y: string)
    requires ColonFree(a) && ColonFree(b)
    requires x == "" || x[0] == ':'
    requires y == "" || y[0] == ':'
    requires a + x == b + y
    ensures a == b && x == y
  {
    var s := a + x;
    assert forall i :: 0 <= i < |a| ==> s[i] == a[i] && a[i] != ':';
    assert forall i :: 0 <= i < |b| ==> s[i] == b[i] && b[i] != ':';
    assert |a| < |s| ==> s[|a|] == ':';
    assert |b| < |s| ==> s[|b|] == ':';
    assert |a| == |b|;
    assert a == s[..|a|] == (b + y)[..|b|] == b;
    assert x == s[|a|..] == (b + y)[|b|..] == y;
  }

  const SUFFIXES: set<string> := {"", ":options", ":votes", ":voters"}

  function PollSuffix(k: Key): (suffix: string)
    requires PollFamily(k)
    ensures suffix in SUFFIXES
  {
    match k
    case PollMeta(_) => ""
    case PollOptions(_) => ":options"
    case PollVotes(_) => ":votes"
    case _ => ":voters"
  }

  /** A poll's key is the id and a suffix. */
  lemma PollNameParts(k: Key)
    requires PollFamily(k)
    ensures Name(k) == "poll:" + k.id + PollSuffix(k) && Name(k)[5..] == k.id + PollSuffix(k)
  {
  }

  /** An id's name has its only colon where the suffix begins. */
  lemma ColonAt(p: PollId, x: string, i: nat)
    requires ColonFree(p) && x in SUFFIXES && i < |p + x| && (p + x)[i] == ':'
    ensures i == |p|
  {
  }

  /** A text that continues a colon-free id with its suffix is that id, or extends it. */
  lemma ContinuesOrExtends(p: PollId, x: string, q: PollId, y: string)
    requires ColonFree(p) && x in SUFFIXES && y in SUFFIXES && p + x == q + y
    ensures (q == p && x == y) || (x != "" && y == "" && q == p + x)
  {
    var s := p + x;
    if y != "" {
      assert s[|q|] == y[0];
      ColonAt(p, x, |q|);
      assert q == s[..|q|] && p == s[..|p|] && x == s[|p|..] && y == s[|q|..];
    } else {
      assert q == q + y;
    }
  }

  lemma PollNamesDistinct(k: Key, l: Key)
    requires PollFamily(k) && PollFamily(l) && Stored(k) && WellFormed(l)
    requires Name(k) == Name(l)
    ensures k == l
  {
    var x, y := PollSuffix(k), PollSuffix(l);
    PollNameParts(k);
    PollNameParts(l);
    ContinuesOrExtends(k.id, x, l.id, y);
    if l.id == k.id + x && x != "" {
      ExtendedBy(k.id, x);
    }
    SuffixTells(k, l);
  }

  lemma EndsInSuffix(p: PollId, x: string)
    requires ColonFree(p)
    ensures EndsIn(p + x, x)
  {
    var q := p + x;
    assert q[|q| - |x|..] == x;
    assert q[..|q| - |x|] == p;
  }

  lemma ExtendedBy(p: PollId, x: string)
    requires ColonFree(p) && x in SUFFIXES && x != ""
    ensures Extends(p + x)
  {
    EndsInSuffix(p, x);
    assert x == ":options" || x == ":votes" || x == ":voters";
  }

  lemma SuffixTells(k: Key, l: Key)
    requires PollFamily(k) && PollFamily(l) && PollSuffix(k) == PollSuffix(l) && k.id == l.id
    ensures k == l
  {
    assert |":votes"| == 6 && |":voters"| == 7 && |":options"| == 8;
  }

  lemma UserNamesDistinct(k: Key, l: Key)
    requires (k.UserVotes? || k.UserCreated?) && (l.UserVotes? || l.UserCreated?)
    requires Name(k) == Name(l)
    ensures k == l
  {
    var n := |Name(k)|;
    assert Name(k)[n - 2] == if k.UserVotes? then 'e' else 'l';
    assert Name(l)[n - 2] == if l.UserVotes? then 'e' else 'l';
    var m := if k.UserVotes? then 6 else 14;
    assert k.user == Name(k)[5..n - m];
    assert l.user == Name(l)[5..n - m];
  }

  /** All key builders together are injective: what is stored under one key is never found under another. */
  lemma NamesDistinct(k: Key, l: Key)
    requires Stored(k) && WellFormed(l)
    requires Name(k) == Name(l)
    ensures k == l
  {
    assert Name(k)[1] == Name(l)[1] && Name(k)[4] == Name(l)[4];
    if PollFamily(k) {
      assert PollFamily(l);
      PollNamesDistinct(k, l);
    } else if k.UserVotes? || k.UserCreated? {
      UserNamesDistinct(k, l);
    } else if k.PollsIndex? || k.PollsPublicIndex? {
      assert |"polls:index"| == 11 && |"polls:public"| == 12;
    }
  }

  /** A text that ends in a suffix is a colon-free id and the suffix. */
  lemma Parts(id: PollId, x: string) returns (p: PollId)
    requires EndsIn(id, x)
    ensures ColonFree(p) && id == p + x
  {
    p := id[..|id| - |x|];
  }

  /** The other poll's key that an extending id takes for its metadata. */
  lemma ReadsAs(id: PollId) returns (k: Key)
    requires Extends(id)
    ensures PollFamily(k) && Stored(k) && !k.PollMeta? && Name(PollMeta(id)) == Name(k)
  {
    if EndsIn(id, ":options") {
      var p := Parts(id, ":options");
      k := PollOptions(p);
    } else if EndsIn(id, ":votes") {
      var p := Parts(id, ":votes");
      k := PollVotes(p);
    } else {
      var p := Parts(id, ":voters");
      k := PollVoters(p);
    }
  }

  /** The four names of a requested id belong to nobody else. */
  ghost predicate OwnNames(id: PollId) {
    forall k, l :: PollFamily(k) && k.id == id && Stored(l) && Name(k) == Name(l) ==> k == l
  }

  lemma ExtensionsMislead(id: PollId)
    requires Extends(id)
    ensures !OwnNames(id)
  {
    var l := ReadsAs(id);
    assert PollMeta(id).id == id && PollMeta(id) != l;
  }

  lemma AskableIdsDoNot(id: PollId)
    requires Askable(id)
    ensures OwnNames(id)
  {
    forall k, l | PollFamily(k) && k.id == id && Stored(l) && Name(k) == Name(l)
      ensures k == l
    {
      NamesDistinct(l, k);
    }
  }

  lemma AskableIff(id: PollId)
    ensures Askable(id) <==> !Extends(id)
  {
    if ColonFree(id) {
      ColonFreeIsNoExtension(id);
    }
  }

  /**
   A requested poll id leads to its own four keys and to nothing that may be stored under another key, exactly when
   it does not extend a colon-free id by one of the suffixes.
   */
  lemma RequestIdsSeparate(id: PollId)
    ensures OwnNames(id) <==> !Extends(id)
    ensures Askable(id) <==> !Extends(id)
  {
    AskableIff(id);
    if Extends(id) {
      ExtensionsMislead(id);
    } else {
      AskableIdsDoNot(id);
    }
  }

  lemma IdemNameWellFormed(user: UserId, key: string)
    ensures Stored(Idem(IdemKey(user, key))) && WellFormed(Idem(IdemKey(user, key)))
  {
    assert "idem:" + user + ":" + key == "idem:" + (user + ":" + key);
  }

  /** A request without a key never shares a name with a request that has one. */
  lemma DisabledNameUnused(user: UserId, key: string)
    requires key != ""
    ensures IdemKey(user, key) != IdemKey(user, "")
  {
    assert IdemKey(user, key)[5 + |user|] == ':';
    assert forall i :: 5 <= i < |"idem:disabled"| ==> "idem:disabled"[i] != ':';
  }

  /** Idempotency names keep users apart exactly when neither user id extends the other past a colon. */
  lemma IdemNamesSeparate(u: UserId, v: UserId)
    requires u != v
    ensures (forall j, k :: j != "" && k != "" ==> IdemKey(u, j) != IdemKey(v, k))
       <==> !(u + ":" <= v) && !(v + ":" <= u)
  {
    if u + ":" <= v {
      IdemNamesClash(u, v);
    } else if v + ":" <= u {
      IdemNamesClash(v, u);
    } else {
      forall j, k | j != "" && k != ""
        ensures IdemKey(u, j) != IdemKey(v, k)
      {
        if IdemKey(u, j) == IdemKey(v, k) {
          IdemNamesPrefix(u, j, v, k);
        }
      }
    }
  }

  lemma IdemNamesClash(u: UserId, v: UserId)
    requires u + ":" <= v
    ensures exists j, k :: j != "" && k != "" && IdemKey(u, j) == IdemKey(v, k)
  {
    var j, k := v[|u| + 1..] + ":x", "x";
    assert v == u + ":" + v[|u| + 1..];
    assert "idem:" + u + ":" + j == "idem:" + v + ":" + k;
    assert IdemKey(u, j) == IdemKey(v, k);
  }

  lemma IdemNamesPrefix(u: UserId, j: string, v: UserId, k: string)
    requires j != "" && k != "" && IdemKey(u, j) == IdemKey(v, k)
    ensures u == v || u + ":" <= v || v + ":" <= u
  {
    var s := IdemKey(u, j)[5..];
    assert s == u + ":" + j;
    assert s == v + ":" + k;
    if |u| < |v| {
      assert v == s[..|v|];
      assert u + ":" == s[..|u| + 1] == v[..|u| + 1];
    } else if |v| < |u| {
      assert u == s[..|u|];
      assert v + ":" == s[..|v| + 1] == u[..|v| + 1];
    } else {
      assert u == s[..|u|] == v;
    }
  }

  /** Users whose ids hold no colon never share an idempotency name. */
  lemma ColonFreeUsersSeparate(u: UserId, j: string, v: UserId, k: string)
    requires ColonFree(u) && ColonFree(v) && j != "" && k != ""
    requires IdemKey(u, j) == IdemKey(v, k)
    ensures u == v && j == k
  {
    assert IdemKey(u, j)[5..] == u + (":" + j);
    assert IdemKey(v, k)[5..] == v + (":" + k);
    SplitAtColon(u, ":" + j, v, ":" + k);
    assert (":" + j)[1..] == j && (":" + k)[1..] == k;
  }
}
