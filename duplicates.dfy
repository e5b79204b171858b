/**
  The duplicate-ticket sweep of `processDuplicatesAndSendWebhook`: tickets are
  grouped by category and sub-category, every pair of a group is visited once
  in loop order, a pair whose canonical id key was already visited in the
  group is skipped, and a pair is sent to the language model only when the
  Jaccard pre-filter and the Levenshtein confirmer both pass on the first 400
  characters of the two texts. A confirmed duplicate retires one of the two
  tickets, preferring to retire an anonymous poster's ticket.
 */
module Duplicates {
  import opened Wrappers
  import opened Text
  import opened Jaccard
  import opened Levenshtein
  import opened Grouping

  type Id = nat

  /** A row of the tickets table. `requirements` is `t.Requirements || ''`:
      an absent value is the empty string. */
  datatype Ticket = Ticket(id: Id, category: string, subCategory: string, username: string, requirements: string)

  /** The report sent to the webhook (the timestamp is not modelled). */
  datatype Payload = Payload(duplicates: seq<Id>, total: nat, found: nat)

  const TextWindow: nat := 400
  const LexicalThreshold: real := 0.08
  const EditThreshold: real := 0.55
  const AnonymousUser: string := "Anonymous participant"

  /** The grouping key `${t["Job categories"]}|||${t["Job sub categories"]}`. */
  function CategoryKey(t: Ticket): string {
    t.category + "|||" + t.subCategory
  }

  /** `(t.Requirements || '').slice(0, 400)`. */
  function Excerpt(t: Ticket): string {
    Prefix(t.requirements, TextWindow)
  }

  /** `[t1.id, t2.id].sort().join('-')`: the two ids in ascending order. */
  datatype PairKey = PairKey(lo: Id, hi: Id)

  function KeyOf(x: Id, y: Id): (k: PairKey)
    ensures k.lo <= k.hi
    ensures (k.lo == x && k.hi == y) || (k.lo == y && k.hi == x)
  {
    if x <= y then PairKey(x, y) else PairKey(y, x)
  }

  /** The key is order-independent and tells unordered pairs apart. */
  lemma KeyOfIdentifiesUnorderedPairs(x: Id, y: Id, u: Id, v: Id)
    ensures KeyOf(x, y) == KeyOf(u, v) <==> (x == u && y == v) || (x == v && y == u)
  {
  }

  // ---------------------------------------------------------------------
  // The semantic arbiter

  /** The language model, as an oracle from the two excerpts to the content
      of its first choice; `None` when the request fails or the reply has no
      content. */
  type Arbiter = (string, string) -> Option<string>

  /** The answer check of `isLikelyDuplicateGPT`: `answer?.trim().toLowerCase() === 'yes'`,
      with a failed request counting as "no". */
  function IsDuplicateAnswer(answer: Option<string>): bool {
    answer.Some? && Lower(Trim(answer.value)) == "yes"
  }

  /** Exactly the replies that are `yes` in any mix of letter cases, with any
      surrounding whitespace, are read as "duplicate". */
  lemma DuplicateAnswers(answer: Option<string>)
    ensures IsDuplicateAnswer(answer) <==>
      && answer.Some?
      && var t := Trim(answer.value);
      && |t| == 3
      && (t[0] == 'y' || t[0] == 'Y')
      && (t[1] == 'e' || t[1] == 'E')
      && (t[2] == 's' || t[2] == 'S')
  {
    if answer.Some? {
      var t := Trim(answer.value);
      if |t| == 3 {
        var l := Lower(t);
        assert l == "yes" <==> l[0] == 'y' && l[1] == 'e' && l[2] == 's';
      }
    }
  }

  function IsLikelyDuplicate(arbiter: Arbiter, text1: string, text2: string): bool {
    IsDuplicateAnswer(arbiter(text1, text2))
  }

  // ---------------------------------------------------------------------
  // The cascade and the elimination rule

  predicate PassesLexicalFilter(t1: Ticket, t2: Ticket) {
    Jaccard.Jaccard(Excerpt(t1), Excerpt(t2)) >= LexicalThreshold
  }

  predicate PassesEditFilter(t1: Ticket, t2: Ticket) {
    Similarity(Normalize(Excerpt(t1)), Normalize(Excerpt(t2))) >= EditThreshold
  }

  /** A pair for which the language model is asked (and `gptRequests` grows). */
  predicate IsCandidate(t1: Ticket, t2: Ticket) {
    PassesLexicalFilter(t1, t2) && PassesEditFilter(t1, t2)
  }

  /** A pair that passes both filters and that the model calls a duplicate. */
  predicate IsConfirmed(t1: Ticket, t2: Ticket, arbiter: Arbiter) {
    IsCandidate(t1, t2) && IsLikelyDuplicate(arbiter, Excerpt(t1), Excerpt(t2))
  }

  /** Two tickets with the same excerpt always pass both filters, so the
      model alone decides. */
  lemma IdenticalExcerptsAreCandidates(t1: Ticket, t2: Ticket, arbiter: Arbiter)
    requires Excerpt(t1) == Excerpt(t2)
    ensures IsCandidate(t1, t2)
    ensures IsConfirmed(t1, t2, arbiter) <==> IsLikelyDuplicate(arbiter, Excerpt(t1), Excerpt(t2))
  {
    JaccardOneIffSameTokens(Excerpt(t1), Excerpt(t2));
  }

  /** A reply with capitals and a trailing newline still reads as "yes". */
  lemma CapitalisedYesIsDuplicate()
    ensures IsDuplicateAnswer(Some("Yes\n"))
    ensures !IsDuplicateAnswer(Some("yes."))
  {
    TrimOfYesNewline();
    LowerOfYes();
    TrimOfTrimmed("yes.");
    assert |Lower("yes.")| == 4;
  }

  lemma TrimOfYesNewline()
    ensures Trim("Yes\n") == "Yes"
  {
    assert LeadingSpaces("Yes\n") == 0;
    assert TrailingStart("Yes\n") == 3;
  }

  lemma LowerOfYes()
    ensures Lower("Yes") == "yes"
  {
    assert LowerChar('Y') == 'y';
  }

  /** Two tickets whose excerpts share no token never reach the model. */
  lemma DisjointExcerptsAreNotCandidates(t1: Ticket, t2: Ticket)
    requires TokenSet(Excerpt(t1)) !! TokenSet(Excerpt(t2))
    ensures !IsCandidate(t1, t2)
  {
    JaccardZeroIffDisjoint(Excerpt(t1), Excerpt(t2));
  }

  /** The id retired for a confirmed pair `(t1, t2)`, `t2` the later ticket. */
  function Retiree(t1: Ticket, t2: Ticket): (id: Id)
    ensures id == t1.id || id == t2.id
  {
    if t1.username == AnonymousUser && t2.username != AnonymousUser then t1.id else t2.id
  }

  /** When exactly one ticket is anonymous it is the one retired, whichever
      way round the pair is given; otherwise the later ticket is retired. */
  lemma RetireePolicy(t1: Ticket, t2: Ticket)
    ensures t1.username == AnonymousUser && t2.username != AnonymousUser ==>
              Retiree(t1, t2) == t1.id && Retiree(t2, t1) == t1.id
    ensures t2.username == AnonymousUser && t1.username != AnonymousUser ==>
              Retiree(t1, t2) == t2.id && Retiree(t2, t1) == t2.id
    ensures (t1.username == AnonymousUser) == (t2.username == AnonymousUser) ==>
              Retiree(t1, t2) == t2.id
  {
  }

  /** The outcome of one evaluated pair. */
  datatype Verdict = RejectedLexical | RejectedEdit | Distinct | Duplicate

  /** The cascade for one evaluated pair: the pre-filter on the excerpts,
      then the confirmer, then the language model. */
  method EvaluatePair(t1: Ticket, t2: Ticket, arbiter: Arbiter) returns (v: Verdict)
    ensures v == RejectedLexical <==> !PassesLexicalFilter(t1, t2)
    ensures v == RejectedEdit <==> PassesLexicalFilter(t1, t2) && !PassesEditFilter(t1, t2)
    ensures v == Distinct || v == Duplicate <==> IsCandidate(t1, t2)
    ensures v == Duplicate <==> IsConfirmed(t1, t2, arbiter)
  {
    var text1 := Excerpt(t1);
    var text2 := Excerpt(t2);
    var jaccard := Jaccard.Jaccard(text1, text2);
    if jaccard < LexicalThreshold {
      return RejectedLexical;
    }
    var lev := LevenshteinSimilarity(text1, text2);
    if lev < EditThreshold {
      return RejectedEdit;
    }
    var isDuplicate := IsLikelyDuplicate(arbiter, text1, text2);
    v := if isDuplicate then Duplicate else Distinct;
  }

  /** One evaluated pair: the cascade, then, for a duplicate, the retiree
      goes into `toDelete`. `asked` says whether the model was consulted. */
  method ComparePair(t1: Ticket, t2: Ticket, arbiter: Arbiter, toDeleteIn: seq<Id>)
    returns (toDelete: seq<Id>, asked: bool)
    requires NoDuplicates(toDeleteIn)
    ensures asked <==> IsCandidate(t1, t2)
    ensures NoDuplicates(toDelete) && toDeleteIn <= toDelete
    ensures Elements(toDelete) == Elements(toDeleteIn) + (if IsConfirmed(t1, t2, arbiter) then {Retiree(t1, t2)} else {})
  {
    toDelete := toDeleteIn;
    var verdict := EvaluatePair(t1, t2, arbiter);
    asked := verdict == Distinct || verdict == Duplicate;
    if verdict != Duplicate {
      return;
    }
    var toRemove := t2;
    if t1.username == AnonymousUser && t2.username != AnonymousUser {
      toRemove := t1;
    } else if t2.username == AnonymousUser && t1.username != AnonymousUser {
      toRemove := t2;
    }
    toDelete := SetAdd(toDelete, toRemove.id);
  }

  function Elements(s: seq<Id>): set<Id> {
    set x | x in s
  }

  /** `toDelete.add(x)` on an insertion-ordered set held as a sequence
      without repetitions. */
  function SetAdd(s: seq<Id>, x: Id): (r: seq<Id>)
    ensures NoDuplicates(s) ==> NoDuplicates(r)
    ensures Elements(r) == Elements(s) + {x}
    ensures s <= r
  {
    if x in s then s else s + [x]
  }

  // ---------------------------------------------------------------------
  // Pairs of one group, in the order of the nested loops

  predicate IsPair(g: seq<Ticket>, i: int, j: int) {
    0 <= i < j < |g|
  }

  /** `(i', j')` is visited before `(i, j)` by the nested loops. */
  predicate Precedes(i': int, j': int, i: int, j: int) {
    i' < i || (i' == i && j' < j)
  }

  /** The pair `(i, j)` is evaluated: no earlier pair of the group has the
      same canonical key, so its key is not yet in `seenPairs`. */
  predicate Fresh(g: seq<Ticket>, i: int, j: int) {
    && IsPair(g, i, j)
    && forall i', j' :: 0 <= i' < j' < |g| && Precedes(i', j', i, j) ==>
         KeyOf(g[i'].id, g[j'].id) != KeyOf(g[i].id, g[j].id)
  }

  /** The pairs visited before `(i, j)`. */
  ghost function Visited(g: seq<Ticket>, i: int, j: int): set<(int, int)> {
    set i', j' | 0 <= i' < j' < |g| && Precedes(i', j', i, j) :: (i', j')
  }

  ghost function AllPairs(g: seq<Ticket>): set<(int, int)> {
    set i, j | 0 <= i < j < |g| :: (i, j)
  }

  /** The content of `seenPairs` once the pairs `ps` have been visited. */
  ghost function SeenKeys(g: seq<Ticket>, ps: set<(int, int)>): set<PairKey> {
    set p | p in ps && IsPair(g, p.0, p.1) :: KeyOf(g[p.0].id, g[p.1].id)
  }

  /** The images under `f` of the pairs of `ps` that `keep` selects. */
  ghost function Select<U>(ps: set<(int, int)>, keep: (int, int) -> bool, f: (int, int) -> U): set<U> {
    set p | p in ps && keep(p.0, p.1) :: f(p.0, p.1)
  }

  lemma SelectStep<U>(ps: set<(int, int)>, i: int, j: int, keep: (int, int) -> bool, f: (int, int) -> U)
    ensures Select(ps + {(i, j)}, keep, f) == Select(ps, keep, f) + (if keep(i, j) then {f(i, j)} else {})
  {
    var extra := if keep(i, j) then {f(i, j)} else {};
    forall x | x in Select(ps + {(i, j)}, keep, f) ensures x in Select(ps, keep, f) + extra {
      var p :| p in ps + {(i, j)} && keep(p.0, p.1) && f(p.0, p.1) == x;
      if p != (i, j) {
        assert p in ps;
      }
    }
    forall x | x in Select(ps, keep, f) + extra ensures x in Select(ps + {(i, j)}, keep, f) {
      if x in extra {
        assert (i, j) in ps + {(i, j)};
      } else {
        var p :| p in ps && keep(p.0, p.1) && f(p.0, p.1) == x;
        assert p in ps + {(i, j)};
      }
    }
  }

  /** The pair `(i, j)` is evaluated and confirmed as a duplicate. */
  predicate RetiresAt(g: seq<Ticket>, arbiter: Arbiter, i: int, j: int) {
    Fresh(g, i, j) && IsConfirmed(g[i], g[j], arbiter)
  }

  /** The pair `(i, j)` is evaluated and passes both filters. */
  predicate AsksAt(g: seq<Ticket>, i: int, j: int) {
    Fresh(g, i, j) && IsCandidate(g[i], g[j])
  }

  function RetireeAt(g: seq<Ticket>, i: int, j: int): Id {
    if IsPair(g, i, j) then Retiree(g[i], g[j]) else 0
  }

  /** The ids retired by the evaluated pairs among `ps`. */
  ghost function RetiredAmong(g: seq<Ticket>, arbiter: Arbiter, ps: set<(int, int)>): set<Id> {
    Select(ps, (i, j) => RetiresAt(g, arbiter, i, j), (i, j) => RetireeAt(g, i, j))
  }

  /** The evaluated pairs among `ps` that reach the language model. */
  ghost function CandidatesAmong(g: seq<Ticket>, ps: set<(int, int)>): set<(int, int)> {
    Select(ps, (i, j) => AsksAt(g, i, j), (i, j) => (i, j))
  }

  ghost function RetiredInGroup(g: seq<Ticket>, arbiter: Arbiter): set<Id> {
    RetiredAmong(g, arbiter, AllPairs(g))
  }

  ghost function CandidatesInGroup(g: seq<Ticket>): nat {
    |CandidatesAmong(g, AllPairs(g))|
  }

  lemma VisitedAtStart(g: seq<Ticket>)
    ensures Visited(g, 0, 1) == {}
  {
  }

  lemma VisitedStep(g: seq<Ticket>, i: int, j: int)
    requires IsPair(g, i, j)
    ensures (i, j) !in Visited(g, i, j)
    ensures Visited(g, i, j + 1) == Visited(g, i, j) + {(i, j)}
  {
  }

  lemma VisitedRowDone(g: seq<Ticket>, i: int)
    requires 0 <= i < |g|
    ensures Visited(g, i, |g|) == Visited(g, i + 1, i + 2)
  {
  }

  lemma VisitedAtEnd(g: seq<Ticket>)
    ensures Visited(g, |g|, |g| + 1) == AllPairs(g)
  {
  }

  /** Visiting one more pair adds its key to `seenPairs`. */
  lemma SeenKeysStep(g: seq<Ticket>, ps: set<(int, int)>, i: int, j: int)
    requires IsPair(g, i, j)
    ensures SeenKeys(g, ps + {(i, j)}) == SeenKeys(g, ps) + {KeyOf(g[i].id, g[j].id)}
  {
    var key := KeyOf(g[i].id, g[j].id);
    forall k | k in SeenKeys(g, ps + {(i, j)}) ensures k in SeenKeys(g, ps) + {key} {
      var p :| p in ps + {(i, j)} && IsPair(g, p.0, p.1) && KeyOf(g[p.0].id, g[p.1].id) == k;
      if p != (i, j) {
        assert p in ps;
      }
    }
    forall k | k in SeenKeys(g, ps) + {key} ensures k in SeenKeys(g, ps + {(i, j)}) {
      if k == key {
        assert (i, j) in ps + {(i, j)};
      } else {
        var p :| p in ps && IsPair(g, p.0, p.1) && KeyOf(g[p.0].id, g[p.1].id) == k;
        assert p in ps + {(i, j)};
      }
    }
  }

  /** Visiting pair `(i, j)`: it is evaluated exactly when its key is not yet
      seen; its key joins the seen keys; its retiree and its model call are
      added only when it is evaluated and passes the cascade. */
  lemma VisitPair(g: seq<Ticket>, arbiter: Arbiter, i: int, j: int)
    requires IsPair(g, i, j)
    ensures KeyOf(g[i].id, g[j].id) in SeenKeys(g, Visited(g, i, j)) ==>
      && SeenKeys(g, Visited(g, i, j + 1)) == SeenKeys(g, Visited(g, i, j))
      && RetiredAmong(g, arbiter, Visited(g, i, j + 1)) == RetiredAmong(g, arbiter, Visited(g, i, j))
      && |CandidatesAmong(g, Visited(g, i, j + 1))| == |CandidatesAmong(g, Visited(g, i, j))|
    ensures KeyOf(g[i].id, g[j].id) !in SeenKeys(g, Visited(g, i, j)) ==>
      && SeenKeys(g, Visited(g, i, j + 1)) == SeenKeys(g, Visited(g, i, j)) + {KeyOf(g[i].id, g[j].id)}
      && RetiredAmong(g, arbiter, Visited(g, i, j + 1)) ==
           RetiredAmong(g, arbiter, Visited(g, i, j)) + (if IsConfirmed(g[i], g[j], arbiter) then {Retiree(g[i], g[j])} else {})
      && |CandidatesAmong(g, Visited(g, i, j + 1))| ==
           |CandidatesAmong(g, Visited(g, i, j))| + (if IsCandidate(g[i], g[j]) then 1 else 0)
  {
    var done := Visited(g, i, j);
    VisitedStep(g, i, j);
    FreshIffUnseen(g, i, j);
    SeenKeysStep(g, done, i, j);
    SelectStep(done, i, j, (a, b) => RetiresAt(g, arbiter, a, b), (a, b) => RetireeAt(g, a, b));
    SelectStep(done, i, j, (a, b) => AsksAt(g, a, b), (a, b) => (a, b));
    assert (i, j) !in CandidatesAmong(g, done);
  }

  /** A pair is evaluated exactly when its key is not yet in `seenPairs`. */
  lemma FreshIffUnseen(g: seq<Ticket>, i: int, j: int)
    requires IsPair(g, i, j)
    ensures Fresh(g, i, j) <==> KeyOf(g[i].id, g[j].id) !in SeenKeys(g, Visited(g, i, j))
  {
    var key := KeyOf(g[i].id, g[j].id);
    if key in SeenKeys(g, Visited(g, i, j)) {
      var p :| p in Visited(g, i, j) && IsPair(g, p.0, p.1) && KeyOf(g[p.0].id, g[p.1].id) == key;
      assert Precedes(p.0, p.1, i, j);
    } else {
      forall i', j' | 0 <= i' < j' < |g| && Precedes(i', j', i, j)
        ensures KeyOf(g[i'].id, g[j'].id) != key
      {
        assert (i', j') in Visited(g, i, j);
      }
    }
  }

  /** The two inner loops of the sweep over one group: `seenPairs` starts
      empty; `toDelete` only grows and gains exactly the retirees of the
      group's confirmed pairs; `gptRequests` grows by the number of the
      group's evaluated pairs that pass both filters. */
  method CompareWithinGroup(g: seq<Ticket>, arbiter: Arbiter, toDelete0: seq<Id>, gptRequests0: nat)
    returns (toDelete: seq<Id>, gptRequests: nat)
    requires NoDuplicates(toDelete0)
    ensures NoDuplicates(toDelete)
    ensures toDelete0 <= toDelete
    ensures Elements(toDelete) == Elements(toDelete0) + RetiredInGroup(g, arbiter)
    ensures gptRequests == gptRequests0 + CandidatesInGroup(g)
  {
    toDelete, gptRequests := toDelete0, gptRequests0;
    var seenPairs: set<PairKey> := {};
    VisitedAtStart(g);
    for i := 0 to |g|
      invariant seenPairs == SeenKeys(g, Visited(g, i, i + 1))
      invariant NoDuplicates(toDelete)
      invariant toDelete0 <= toDelete
      invariant Elements(toDelete) == Elements(toDelete0) + RetiredAmong(g, arbiter, Visited(g, i, i + 1))
      invariant gptRequests == gptRequests0 + |CandidatesAmong(g, Visited(g, i, i + 1))|
    {
      seenPairs, toDelete, gptRequests := CompareRow(g, arbiter, i, toDelete0, gptRequests0, seenPairs, toDelete, gptRequests);
      VisitedRowDone(g, i);
    }
    VisitedAtEnd(g);
  }

  /** The inner loop for one ticket `g[i]`: it is compared with every later
      ticket of the group, in order, unless the pair's key was seen before. */
  method CompareRow(g: seq<Ticket>, arbiter: Arbiter, i: nat, ghost toDelete0: seq<Id>, ghost gptRequests0: nat,
                    seenPairs0: set<PairKey>, toDeleteIn: seq<Id>, gptRequestsIn: nat)
    returns (seenPairs: set<PairKey>, toDelete: seq<Id>, gptRequests: nat)
    requires i < |g|
    requires seenPairs0 == SeenKeys(g, Visited(g, i, i + 1))
    requires NoDuplicates(toDeleteIn) && toDelete0 <= toDeleteIn
    requires Elements(toDeleteIn) == Elements(toDelete0) + RetiredAmong(g, arbiter, Visited(g, i, i + 1))
    requires gptRequestsIn == gptRequests0 + |CandidatesAmong(g, Visited(g, i, i + 1))|
    ensures seenPairs == SeenKeys(g, Visited(g, i, |g|))
    ensures NoDuplicates(toDelete) && toDelete0 <= toDelete
    ensures Elements(toDelete) == Elements(toDelete0) + RetiredAmong(g, arbiter, Visited(g, i, |g|))
    ensures gptRequests == gptRequests0 + |CandidatesAmong(g, Visited(g, i, |g|))|
  {
    seenPairs, toDelete, gptRequests := seenPairs0, toDeleteIn, gptRequestsIn;
    var t1 := g[i];
    for j := i + 1 to |g|
      invariant seenPairs == SeenKeys(g, Visited(g, i, j))
      invariant NoDuplicates(toDelete)
      invariant toDelete0 <= toDelete
      invariant Elements(toDelete) == Elements(toDelete0) + RetiredAmong(g, arbiter, Visited(g, i, j))
      invariant gptRequests == gptRequests0 + |CandidatesAmong(g, Visited(g, i, j))|
    {
      var t2 := g[j];
      var key := KeyOf(t1.id, t2.id);
      VisitPair(g, arbiter, i, j);
      if key in seenPairs {
        continue;
      }
      seenPairs := seenPairs + {key};
      var asked;
      ghost var before := toDelete;
      toDelete, asked := ComparePair(t1, t2, arbiter, toDelete);
      if asked {
        gptRequests := gptRequests + 1;
      }
      UnionStep(Elements(toDelete0), RetiredAmong(g, arbiter, Visited(g, i, j)),
                if IsConfirmed(t1, t2, arbiter) then {Retiree(t1, t2)} else {},
                Elements(before), Elements(toDelete));
    }
  }

  lemma UnionStep<U>(base: set<U>, done: set<U>, step: set<U>, current: set<U>, next: set<U>)
    requires current == base + done && next == current + step
    ensures next == base + (done + step)
  {
  }

  // ---------------------------------------------------------------------
  // The whole sweep

  /** The groups of `groupBy`, in `Object.values` order. */
  function Groups(tickets: seq<Ticket>): seq<seq<Ticket>> {
    var keys := DistinctKeys(tickets, CategoryKey);
    seq(|keys|, n requires 0 <= n < |keys| => Members(tickets, CategoryKey, keys[n]))
  }

  ghost function RetiredInGroups(gs: seq<seq<Ticket>>, arbiter: Arbiter): set<Id> {
    if gs == [] then {}
    else RetiredInGroups(gs[..|gs| - 1], arbiter) + RetiredInGroup(gs[|gs| - 1], arbiter)
  }

  ghost function CandidatesInGroups(gs: seq<seq<Ticket>>): nat {
    if gs == [] then 0
    else CandidatesInGroups(gs[..|gs| - 1]) + CandidatesInGroup(gs[|gs| - 1])
  }

  /** The ids the sweep retires from `tickets`. */
  ghost function Retired(tickets: seq<Ticket>, arbiter: Arbiter): set<Id> {
    RetiredInGroups(Groups(tickets), arbiter)
  }

  /** The number of language-model requests the sweep makes. */
  ghost function ModelRequests(tickets: seq<Ticket>): nat {
    CandidatesInGroups(Groups(tickets))
  }

  /** The body of `processDuplicatesAndSendWebhook` between fetching the
      rows and posting the report: the groups are swept in order, one shared
      `toDelete` set collects the retirees, and the payload lists them. */
  method ProcessDuplicates(tickets: seq<Ticket>, arbiter: Arbiter) returns (payload: Payload, gptRequests: nat)
    ensures payload.total == |tickets|
    ensures NoDuplicates(payload.duplicates)
    ensures Elements(payload.duplicates) == Retired(tickets, arbiter)
    ensures payload.found == |payload.duplicates| == |Retired(tickets, arbiter)|
    ensures gptRequests == ModelRequests(tickets)
  {
    var keys, groups := GroupBy(tickets, CategoryKey);
    var toDelete: seq<Id> := [];
    gptRequests := 0;
    ghost var gs := Groups(tickets);
    for n := 0 to |keys|
      invariant NoDuplicates(toDelete)
      invariant Elements(toDelete) == RetiredInGroups(gs[..n], arbiter)
      invariant gptRequests == CandidatesInGroups(gs[..n])
    {
      assert gs[..n + 1][..n] == gs[..n];
      toDelete, gptRequests := CompareWithinGroup(groups[keys[n]], arbiter, toDelete, gptRequests);
    }
    assert gs[..|keys|] == gs;
    NoDuplicatesCardinality(toDelete);
    payload := Payload(toDelete, |tickets|, |toDelete|);
  }

  /** A sequence without repeats has as many elements as its set. */
  lemma {:induction false} NoDuplicatesCardinality(s: seq<Id>)
    requires NoDuplicates(s)
    ensures |Elements(s)| == |s|
  {
    if s != [] {
      var prefix := s[..|s| - 1];
      assert NoDuplicates(prefix);
      NoDuplicatesCardinality(prefix);
      assert s == prefix + [s[|s| - 1]];
      assert Elements(s) == Elements(prefix) + {s[|s| - 1]};
      assert s[|s| - 1] !in Elements(prefix);
    }
  }

  /** The groups partition the tickets: every group is non-empty, holds
      only input tickets, every ticket is in some group, and two tickets are
      in the same group exactly when their category keys agree. */
  lemma GroupsPartitionTickets(tickets: seq<Ticket>)
    ensures forall n :: 0 <= n < |Groups(tickets)| ==> Groups(tickets)[n] != []
    ensures forall n, t :: 0 <= n < |Groups(tickets)| && t in Groups(tickets)[n] ==> t in tickets
    ensures forall t :: t in tickets ==> exists n :: 0 <= n < |Groups(tickets)| && t in Groups(tickets)[n]
    ensures forall n, m, t1, t2 ::
              0 <= n < |Groups(tickets)| && 0 <= m < |Groups(tickets)| &&
              t1 in Groups(tickets)[n] && t2 in Groups(tickets)[m]
              ==> (CategoryKey(t1) == CategoryKey(t2) <==> n == m)
  {
    var keys, gs := DistinctKeys(tickets, CategoryKey), Groups(tickets);
    DistinctKeysExact(tickets, CategoryKey);
    forall n | 0 <= n < |gs|
      ensures gs[n] != []
      ensures forall t :: t in gs[n] <==> t in tickets && CategoryKey(t) == keys[n]
    {
      MembersExact(tickets, CategoryKey, keys[n]);
      assert HasKey(tickets, CategoryKey, keys[n]);
      var i :| 0 <= i < |tickets| && CategoryKey(tickets[i]) == keys[n];
      assert tickets[i] in gs[n];
    }
    forall t | t in tickets ensures exists n :: 0 <= n < |gs| && t in gs[n] {
      EachItemInExactlyOneGroup(tickets, CategoryKey, t);
      var n :| 0 <= n < |keys| && keys[n] == CategoryKey(t);
      assert t in gs[n];
    }
  }

  lemma {:induction false} RetiredInSomeGroup(gs: seq<seq<Ticket>>, arbiter: Arbiter, x: Id)
    requires x in RetiredInGroups(gs, arbiter)
    ensures exists n :: 0 <= n < |gs| && x in RetiredInGroup(gs[n], arbiter)
  {
    var prefix := gs[..|gs| - 1];
    if x in RetiredInGroups(prefix, arbiter) {
      RetiredInSomeGroup(prefix, arbiter, x);
      var n :| 0 <= n < |prefix| && x in RetiredInGroup(prefix[n], arbiter);
      assert gs[n] == prefix[n];
    }
  }

  lemma SelectWitness<U>(ps: set<(int, int)>, keep: (int, int) -> bool, f: (int, int) -> U, x: U)
    returns (i: int, j: int)
    requires x in Select(ps, keep, f)
    ensures (i, j) in ps && keep(i, j) && f(i, j) == x
  {
    var p :| p in ps && keep(p.0, p.1) && f(p.0, p.1) == x;
    i, j := p.0, p.1;
  }

  lemma RetiredInGroupWitness(g: seq<Ticket>, arbiter: Arbiter, x: Id) returns (i: int, j: int)
    requires x in RetiredInGroup(g, arbiter)
    ensures IsPair(g, i, j) && Fresh(g, i, j) && IsConfirmed(g[i], g[j], arbiter) && x == Retiree(g[i], g[j])
  {
    i, j := SelectWitness(AllPairs(g), (a, b) => RetiresAt(g, arbiter, a, b), (a, b) => RetireeAt(g, a, b), x);
    assert RetiresAt(g, arbiter, i, j);
  }

  lemma RetiredWitness(tickets: seq<Ticket>, arbiter: Arbiter, x: Id) returns (a: int, b: int)
    requires x in Retired(tickets, arbiter)
    ensures 0 <= a < b < |tickets| && CategoryKey(tickets[a]) == CategoryKey(tickets[b])
    ensures IsConfirmed(tickets[a], tickets[b], arbiter) && x == Retiree(tickets[a], tickets[b])
  {
    var keys, gs := DistinctKeys(tickets, CategoryKey), Groups(tickets);
    RetiredInSomeGroup(gs, arbiter, x);
    var n :| 0 <= n < |gs| && x in RetiredInGroup(gs[n], arbiter);
    var i, j := RetiredInGroupWitness(gs[n], arbiter, x);
    var g := gs[n];
    assert g == Members(tickets, CategoryKey, keys[n]);
    a, b := MembersPositions(tickets, CategoryKey, keys[n], i, j);
  }

  /** Soundness: every retired id is the retiree of two input tickets at
      positions `a < b`, of the same category, that pass both filters and
      that the model calls duplicates. */
  lemma RetiredComesFromConfirmedPair(tickets: seq<Ticket>, arbiter: Arbiter, x: Id)
    requires x in Retired(tickets, arbiter)
    ensures exists a, b :: 0 <= a < b < |tickets| && CategoryKey(tickets[a]) == CategoryKey(tickets[b]) &&
              IsConfirmed(tickets[a], tickets[b], arbiter) && x == Retiree(tickets[a], tickets[b])
  {
    var a, b := RetiredWitness(tickets, arbiter, x);
  }

  /** Every retired id is the id of an input ticket, so the report never
      counts more duplicates than tickets. */
  lemma FoundAtMostTotal(tickets: seq<Ticket>, arbiter: Arbiter)
    ensures forall x :: x in Retired(tickets, arbiter) ==> exists t :: t in tickets && t.id == x
    ensures |Retired(tickets, arbiter)| <= |tickets|
  {
    forall x | x in Retired(tickets, arbiter) ensures exists t :: t in tickets && t.id == x {
      var a, b := RetiredWitness(tickets, arbiter, x);
      if x == tickets[a].id {
        assert tickets[a] in tickets;
      } else {
        assert tickets[b] in tickets && x == tickets[b].id;
      }
    }
    assert Retired(tickets, arbiter) <= IdsOf(tickets);
    IdsOfSize(tickets);
    SubsetCardinality(Retired(tickets, arbiter), IdsOf(tickets));
  }

  function IdsOf(tickets: seq<Ticket>): set<Id> {
    set t | t in tickets :: t.id
  }

  lemma {:induction false} IdsOfSize(tickets: seq<Ticket>)
    ensures |IdsOf(tickets)| <= |tickets|
  {
    if tickets != [] {
      var prefix := tickets[..|tickets| - 1];
      IdsOfSize(prefix);
      assert tickets == prefix + [tickets[|tickets| - 1]];
      assert IdsOf(tickets) == IdsOf(prefix) + {tickets[|tickets| - 1].id};
    }
  }

  /** Two evaluated pairs with the same key are the same pair: `seenPairs`
      lets each unordered pair of ids through at most once per group. */
  lemma FreshAtMostOnce(g: seq<Ticket>, i: int, j: int, i': int, j': int)
    requires Fresh(g, i, j) && Fresh(g, i', j')
    requires KeyOf(g[i].id, g[j].id) == KeyOf(g[i'].id, g[j'].id)
    ensures i == i' && j == j'
  {
    if Precedes(i', j', i, j) {
      assert false;
    } else if Precedes(i, j, i', j') {
      assert false;
    }
  }

  /** When the ids of a group are distinct, no pair is skipped. */
  lemma DistinctIdsMakeEveryPairFresh(g: seq<Ticket>, i: int, j: int)
    requires IsPair(g, i, j)
    requires forall a, b :: 0 <= a < b < |g| ==> g[a].id != g[b].id
    ensures Fresh(g, i, j)
  {
    forall i', j' | 0 <= i' < j' < |g| && Precedes(i', j', i, j)
      ensures KeyOf(g[i'].id, g[j'].id) != KeyOf(g[i].id, g[j].id)
    {
      KeyOfIdentifiesUnorderedPairs(g[i'].id, g[j'].id, g[i].id, g[j].id);
    }
  }

  lemma SelectMember<U>(ps: set<(int, int)>, keep: (int, int) -> bool, f: (int, int) -> U, i: int, j: int)
    requires (i, j) in ps && keep(i, j)
    ensures f(i, j) in Select(ps, keep, f)
  {
  }

  lemma {:induction false} GroupRetiredIncluded(gs: seq<seq<Ticket>>, arbiter: Arbiter, n: int)
    requires 0 <= n < |gs|
    ensures RetiredInGroup(gs[n], arbiter) <= RetiredInGroups(gs, arbiter)
  {
    if n < |gs| - 1 {
      GroupRetiredIncluded(gs[..|gs| - 1], arbiter, n);
    }
  }

  lemma RetiresAtIncluded(g: seq<Ticket>, arbiter: Arbiter, i: int, j: int)
    requires RetiresAt(g, arbiter, i, j)
    ensures Retiree(g[i], g[j]) in RetiredInGroup(g, arbiter)
  {
    assert (i, j) in AllPairs(g);
    SelectMember(AllPairs(g), (x, y) => RetiresAt(g, arbiter, x, y), (x, y) => RetireeAt(g, x, y), i, j);
  }

  /** Unique ids in the input stay unique within a group. */
  lemma GroupIdsDistinct(tickets: seq<Ticket>, k: string)
    requires forall p, q :: 0 <= p < q < |tickets| ==> tickets[p].id != tickets[q].id
    ensures forall p, q :: 0 <= p < q < |Members(tickets, CategoryKey, k)| ==>
              Members(tickets, CategoryKey, k)[p].id != Members(tickets, CategoryKey, k)[q].id
  {
    var g := Members(tickets, CategoryKey, k);
    assert NoDuplicates(tickets);
    MembersNoDuplicates(tickets, CategoryKey, k);
    MembersExact(tickets, CategoryKey, k);
    forall p, q | 0 <= p < q < |g| ensures g[p].id != g[q].id {
      assert g[p] in g && g[q] in g && g[p] != g[q];
      var p' :| 0 <= p' < |tickets| && tickets[p'] == g[p];
      var q' :| 0 <= q' < |tickets| && tickets[q'] == g[q];
    }
  }

  /** Two tickets of the same category, the first earlier in the input,
      sit in one group in the same order. */
  lemma SameKeyPairInGroup(tickets: seq<Ticket>, a: int, b: int) returns (n: int, i: int, j: int)
    requires 0 <= a < b < |tickets| && CategoryKey(tickets[a]) == CategoryKey(tickets[b])
    ensures 0 <= n < |Groups(tickets)|
    ensures Groups(tickets)[n] == Members(tickets, CategoryKey, CategoryKey(tickets[a]))
    ensures 0 <= i < j < |Groups(tickets)[n]|
    ensures Groups(tickets)[n][i] == tickets[a] && Groups(tickets)[n][j] == tickets[b]
  {
    var keys := DistinctKeys(tickets, CategoryKey);
    var k := CategoryKey(tickets[a]);
    DistinctKeysExact(tickets, CategoryKey);
    assert HasKey(tickets, CategoryKey, k);
    n :| 0 <= n < |keys| && keys[n] == k;
    var g := Members(tickets, CategoryKey, k);
    MembersKeepOrder(tickets, CategoryKey, a, b);
    i, j :| 0 <= i < j < |g| && g[i] == tickets[a] && g[j] == tickets[b];
  }

  /** Completeness, when ids are unique: for two tickets of the same
      category, the earlier one first, that pass both filters and that the
      model calls duplicates, the retiree is in the report. */
  lemma ConfirmedPairIsRetired(tickets: seq<Ticket>, arbiter: Arbiter, a: int, b: int)
    requires forall p, q :: 0 <= p < q < |tickets| ==> tickets[p].id != tickets[q].id
    requires 0 <= a < b < |tickets| && CategoryKey(tickets[a]) == CategoryKey(tickets[b])
    requires IsConfirmed(tickets[a], tickets[b], arbiter)
    ensures Retiree(tickets[a], tickets[b]) in Retired(tickets, arbiter)
  {
    var n, i, j := SameKeyPairInGroup(tickets, a, b);
    var g := Groups(tickets)[n];
    GroupIdsDistinct(tickets, CategoryKey(tickets[a]));
    DistinctIdsMakeEveryPairFresh(g, i, j);
    RetiresAtIncluded(g, arbiter, i, j);
    GroupRetiredIncluded(Groups(tickets), arbiter, n);
  }
}
