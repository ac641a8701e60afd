/** The request handlers for links. Each handler is first given as a
    function from the old store to its response and the new store; the
    `LinkStore` class at the end runs the handlers against a store it
    updates in place, and each of its methods is proved to agree with the
    function. A handler is one atomic step; the URL parser, the clock and
    the random source are parameters. */
module LinkController {
  import opened Wrappers
  import opened LinkSchema
  import opened CodeGen

  const StatusOk: nat := 200
  const StatusCreated: nat := 201
  const StatusFound: nat := 302
  const StatusBadRequest: nat := 400
  const StatusNotFound: nat := 404
  const StatusConflict: nat := 409
  const StatusServerError: nat := 500

  /** The error bodies the handlers send. `PageNotFound` is the plain-text
      404 of the redirect route; `LinkNotFound` is the JSON one. */
  datatype ErrorKind =
    | InvalidUrl
    | InvalidCodeFormat
    | CodeInUse
    | LinkNotFound
    | PageNotFound
    | ServerError

  datatype Body =
    | Record(link: Link)
    | Records(links: seq<Link>)
    | Deleted
    | RedirectTo(location: string)
    | Failure(error: ErrorKind)

  datatype Response = Response(status: nat, body: Body)

  /** What a handler sends and the store it leaves behind. */
  datatype Outcome = Outcome(response: Response, store: Store)

  // ---------------------------------------------------------------------
  // Creating a link

  /** `new URL(target)` succeeds. A missing target is coerced to the string
      "undefined", which has no scheme, so it is rejected too. */
  predicate TargetParses(target: Option<string>, parsesAsUrl: string -> bool) {
    target.Some? && parsesAsUrl(target.value)
  }

  /** `if (code)`: an absent or empty custom code is falsy. */
  predicate IsTruthy(code: Option<string>) {
    code.Some? && code.value != ""
  }

  /** Every candidate in `attempts` is six values of `Math.random()`. */
  predicate AreDrawSequences(attempts: seq<seq<real>>) {
    forall a :: a in attempts ==> IsDrawSequence(a)
  }

  /** Some candidate from position `from` on yields a code not in `store`. */
  predicate HasFreeAttemptFrom(attempts: seq<seq<real>>, store: Store, from: nat)
    requires AreDrawSequences(attempts)
  {
    exists j :: from <= j < |attempts| && CodeFromDraws(attempts[j]) !in store
  }

  /** The position of the first free candidate at or after `from`. */
  function FirstFreeAttempt(attempts: seq<seq<real>>, store: Store, from: nat): (k: nat)
    requires AreDrawSequences(attempts) && HasFreeAttemptFrom(attempts, store, from)
    ensures from <= k < |attempts| && CodeFromDraws(attempts[k]) !in store
    ensures forall j :: from <= j < k ==> CodeFromDraws(attempts[j]) in store
    decreases |attempts| - from
  {
    if CodeFromDraws(attempts[from]) !in store then from
    else FirstFreeAttempt(attempts, store, from + 1)
  }

  /** What the create handler needs of its environment: the random source
      gives six draws per attempt, and when the generation loop runs it
      eventually yields an unused code (otherwise the loop never ends). */
  predicate CreateRequires(store: Store, target: Option<string>, code: Option<string>,
                           parsesAsUrl: string -> bool, attempts: seq<seq<real>>)
  {
    && AreDrawSequences(attempts)
    && (TargetParses(target, parsesAsUrl) && !IsTruthy(code) ==> HasFreeAttemptFrom(attempts, store, 0))
  }

  /** Saving the checked code and target: 201 with the new record, or 500
      when the save throws. */
  function Insert(store: Store, code: string, target: string, now: nat): Outcome {
    match Save(store, code, target, now)
    case Ok(l) => Outcome(Response(StatusCreated, Record(l)), store[l.code := l])
    case Err(_) => Outcome(Response(StatusServerError, Failure(ServerError)), store)
  }

  /** `createLink`: the target check, then the custom-code pattern check,
      then its uniqueness check, or else the generation loop; then one
      save. */
  function CreateLinkOutcome(store: Store, target: Option<string>, code: Option<string>,
                             parsesAsUrl: string -> bool, attempts: seq<seq<real>>, now: nat): (r: Outcome)
    requires CreateRequires(store, target, code, parsesAsUrl, attempts)
    ensures r.response.status in {StatusCreated, StatusBadRequest, StatusConflict, StatusServerError}
    ensures r.response.status != StatusCreated ==> r.store == store
    ensures !TargetParses(target, parsesAsUrl) ==> r.response == Response(StatusBadRequest, Failure(InvalidUrl))
    ensures r.response.status == StatusCreated ==>
      && r.response.body.Record?
      && var l := r.response.body.link;
      && l.code !in store && ValidLink(l)
      && r.store == store[l.code := l]
      && l == Link(l.code, Trim(target.value), 0, None, now, now)
  {
    if !TargetParses(target, parsesAsUrl) then
      Outcome(Response(StatusBadRequest, Failure(InvalidUrl)), store)
    else if IsTruthy(code) then
      if !ValidCode(code.value) then
        Outcome(Response(StatusBadRequest, Failure(InvalidCodeFormat)), store)
      else if code.value in store then
        Outcome(Response(StatusConflict, Failure(CodeInUse)), store)
      else
        Insert(store, code.value, target.value, now)
    else
      Insert(store, CodeFromDraws(attempts[FirstFreeAttempt(attempts, store, 0)]), target.value, now)
  }

  /** With a parseable target and a non-empty custom code: a code that
      misses the pattern is a 400, a taken one a 409, and a free one is
      stored as given (500 only if the trimmed target is empty). */
  lemma CreateWithCustomCode(store: Store, target: Option<string>, code: Option<string>,
                             parsesAsUrl: string -> bool, attempts: seq<seq<real>>, now: nat)
    requires CreateRequires(store, target, code, parsesAsUrl, attempts)
    requires TargetParses(target, parsesAsUrl) && IsTruthy(code)
    ensures var r := CreateLinkOutcome(store, target, code, parsesAsUrl, attempts, now);
      && (!ValidCode(code.value) ==>
            r == Outcome(Response(StatusBadRequest, Failure(InvalidCodeFormat)), store))
      && (ValidCode(code.value) && code.value in store ==>
            r == Outcome(Response(StatusConflict, Failure(CodeInUse)), store))
      && (ValidCode(code.value) && code.value !in store ==>
            if Trim(target.value) == "" then
              r == Outcome(Response(StatusServerError, Failure(ServerError)), store)
            else
              r.response.status == StatusCreated && r.response.body.link.code == code.value)
  {
    if ValidCode(code.value) {
      ValidCodeIsUntouchedByTrim(code.value);
    }
  }

  /** With a parseable target and no (or an empty) custom code: the code
      comes from the first candidate whose code is not yet stored, has six
      characters and matches the pattern. */
  lemma CreateWithGeneratedCode(store: Store, target: Option<string>, code: Option<string>,
                                parsesAsUrl: string -> bool, attempts: seq<seq<real>>, now: nat)
    requires CreateRequires(store, target, code, parsesAsUrl, attempts)
    requires TargetParses(target, parsesAsUrl) && !IsTruthy(code)
    ensures var r := CreateLinkOutcome(store, target, code, parsesAsUrl, attempts, now);
      var k := FirstFreeAttempt(attempts, store, 0);
      if Trim(target.value) == "" then
        r == Outcome(Response(StatusServerError, Failure(ServerError)), store)
      else
        && r.response.status == StatusCreated
        && r.response.body.link.code == CodeFromDraws(attempts[k])
        && |r.response.body.link.code| == CodeLength
        && ValidCode(r.response.body.link.code)
        && (forall j :: 0 <= j < k ==> CodeFromDraws(attempts[j]) in store)
  {
    var k := FirstFreeAttempt(attempts, store, 0);
    GeneratedCodeIsValid(attempts[k]);
    ValidCodeIsUntouchedByTrim(CodeFromDraws(attempts[k]));
  }

  /** An empty custom code takes the same path as an absent one. */
  lemma EmptyCodeIsAbsentCode(store: Store, target: Option<string>,
                              parsesAsUrl: string -> bool, attempts: seq<seq<real>>, now: nat)
    requires CreateRequires(store, target, None, parsesAsUrl, attempts)
    ensures CreateLinkOutcome(store, target, Some(""), parsesAsUrl, attempts, now)
         == CreateLinkOutcome(store, target, None, parsesAsUrl, attempts, now)
  {
  }

  /** Creating keeps the store invariant, and a 201 adds exactly one key. */
  lemma CreatePreservesInvariant(store: Store, target: Option<string>, code: Option<string>,
                                 parsesAsUrl: string -> bool, attempts: seq<seq<real>>, now: nat)
    requires StoreInvariant(store)
    requires CreateRequires(store, target, code, parsesAsUrl, attempts)
    ensures var r := CreateLinkOutcome(store, target, code, parsesAsUrl, attempts, now);
      && StoreInvariant(r.store)
      && (r.response.status == StatusCreated ==>
            r.store.Keys == store.Keys + {r.response.body.link.code} && |r.store| == |store| + 1)
  {
    var r := CreateLinkOutcome(store, target, code, parsesAsUrl, attempts, now);
    if r.response.status == StatusCreated {
      AddingValidLinkKeepsInvariant(store, r.response.body.link);
    }
  }

  // ---------------------------------------------------------------------
  // Reading links

  /** `getLinkStats`: the record stored under `code`, or a 404. */
  function GetLinkStats(store: Store, code: string): (r: Response)
    ensures r.status == StatusOk <==> code in store
    ensures code in store ==> r.body == Record(store[code])
    ensures code in store && KeyedByCode(store) ==> r.body.link.code == code
    ensures code !in store ==> r == Response(StatusNotFound, Failure(LinkNotFound))
  {
    if code in store then Response(StatusOk, Record(store[code]))
    else Response(StatusNotFound, Failure(LinkNotFound))
  }

  /** After a 201, reading the new code gives the record just created:
      the trimmed target, no clicks and no last visit. */
  lemma CreatedLinkIsReadable(store: Store, target: Option<string>, code: Option<string>,
                              parsesAsUrl: string -> bool, attempts: seq<seq<real>>, now: nat)
    requires CreateRequires(store, target, code, parsesAsUrl, attempts)
    ensures var r := CreateLinkOutcome(store, target, code, parsesAsUrl, attempts, now);
      r.response.status == StatusCreated ==>
        var c := r.response.body.link.code;
        && GetLinkStats(r.store, c) == Response(StatusOk, Record(r.response.body.link))
        && r.store[c].target == Trim(target.value)
        && r.store[c].clicks == 0 && r.store[c].lastClicked == None
  {
  }

  /** A create with a free, well-formed custom code and a usable target
      succeeds, and a second create with the same code is then a 409,
      whatever its target. */
  lemma SecondCreateWithSameCodeConflicts(store: Store, target: Option<string>, target': Option<string>,
                                          code: string, parsesAsUrl: string -> bool,
                                          attempts: seq<seq<real>>, now: nat, now': nat)
    requires AreDrawSequences(attempts)
    requires TargetParses(target, parsesAsUrl) && Trim(target.value) != ""
    requires TargetParses(target', parsesAsUrl)
    requires ValidCode(code) && code !in store
    ensures var r := CreateLinkOutcome(store, target, Some(code), parsesAsUrl, attempts, now);
      && r.response.status == StatusCreated
      && r.response.body.link.code == code
      && CreateLinkOutcome(r.store, target', Some(code), parsesAsUrl, attempts, now')
           == Outcome(Response(StatusConflict, Failure(CodeInUse)), r.store)
  {
    CreateWithCustomCode(store, target, Some(code), parsesAsUrl, attempts, now);
  }

  /** `k` holds a record of `store` that no other record is newer than. */
  ghost predicate IsNewest(store: Store, k: string)
    requires k in store
  {
    forall k' :: k' in store ==> store[k'].createdAt <= store[k].createdAt
  }

  /** A non-empty store has a newest record. */
  lemma {:induction false} NewestExists(store: Store)
    requires store != map[]
    ensures exists k :: k in store && IsNewest(store, k)
    decreases |store|
  {
    var k0 :| k0 in store;
    var rest := store - {k0};
    assert rest.Keys == store.Keys - {k0};
    if rest != map[] {
      NewestExists(rest);
      var k1 :| k1 in rest && IsNewest(rest, k1);
      var k := if store[k1].createdAt < store[k0].createdAt then k0 else k1;
      forall k' | k' in store
        ensures store[k'].createdAt <= store[k].createdAt
      {
        if k' != k0 {
          assert k' in rest;
        }
      }
    } else {
      assert rest.Keys == {};
      assert store.Keys == {k0};
      assert IsNewest(store, k0);
    }
  }

  /** A record with the latest `createdAt` (which one, among ties, is left
      open). */
  ghost function Newest(store: Store): (k: string)
    requires store != map[]
    ensures k in store && IsNewest(store, k)
  {
    NewestExists(store);
    var k :| k in store && IsNewest(store, k);
    k
  }

  /** The records of `store` ordered by `createdAt` from newest to oldest,
      the order `sort({ createdAt: -1 })` produces. */
  ghost function NewestFirst(store: Store): (r: seq<Link>)
    requires KeyedByCode(store)
    ensures |r| == |store|
    ensures forall i :: 0 <= i < |r| ==> r[i].code in store && store[r[i].code] == r[i]
    decreases |store|
  {
    if store == map[] then []
    else
      var k := Newest(store);
      var rest := store - {k};
      assert rest.Keys == store.Keys - {k};
      [store[k]] + NewestFirst(rest)
  }

  /** No record in `r` comes before a newer one. */
  predicate IsNewestFirst(r: seq<Link>) {
    forall i, j :: 0 <= i < j < |r| ==> r[i].createdAt >= r[j].createdAt
  }

  /** The listing never puts an older record before a newer one. */
  lemma {:induction false} NewestFirstIsSorted(store: Store)
    requires KeyedByCode(store)
    ensures IsNewestFirst(NewestFirst(store))
    decreases |store|
  {
    if store != map[] {
      var k := Newest(store);
      var rest := store - {k};
      assert rest.Keys == store.Keys - {k};
      NewestFirstIsSorted(rest);
      var r := NewestFirst(store);
      var tail := NewestFirst(rest);
      assert r == [store[k]] + tail;
      forall i, j | 0 <= i < j < |r|
        ensures r[i].createdAt >= r[j].createdAt
      {
        if i == 0 {
          var c := tail[j - 1].code;
          assert r[j] == tail[j - 1] && c in rest && rest[c] == tail[j - 1];
          assert c in store && store[c] == rest[c];
        } else {
          assert r[i] == tail[i - 1] && r[j] == tail[j - 1];
          assert tail[i - 1].createdAt >= tail[j - 1].createdAt;
        }
      }
    }
  }

  /** Every record of `store` appears in `r`. */
  predicate ListsEveryRecord(store: Store, r: seq<Link>) {
    forall k :: k in store ==> store[k] in r
  }

  /** No code appears twice in `r`. */
  predicate HasDistinctCodes(r: seq<Link>) {
    forall i, j :: 0 <= i < j < |r| ==> r[i].code != r[j].code
  }

  /** The listing holds every stored record. */
  lemma {:induction false} NewestFirstListsEveryRecord(store: Store)
    requires KeyedByCode(store)
    ensures ListsEveryRecord(store, NewestFirst(store))
    decreases |store|
  {
    if store != map[] {
      var k := Newest(store);
      var rest := store - {k};
      assert rest.Keys == store.Keys - {k};
      NewestFirstListsEveryRecord(rest);
      var r := NewestFirst(store);
      var tail := NewestFirst(rest);
      assert r == [store[k]] + tail;
      forall k' | k' in store
        ensures store[k'] in r
      {
        if k' != k {
          assert k' in rest && rest[k'] in tail;
        }
      }
    }
  }

  /** The listing holds no code twice. */
  lemma {:induction false} NewestFirstHasDistinctCodes(store: Store)
    requires KeyedByCode(store)
    ensures HasDistinctCodes(NewestFirst(store))
    decreases |store|
  {
    if store != map[] {
      var k := Newest(store);
      var rest := store - {k};
      assert rest.Keys == store.Keys - {k};
      NewestFirstHasDistinctCodes(rest);
      var r := NewestFirst(store);
      var tail := NewestFirst(rest);
      assert r == [store[k]] + tail;
      forall i, j | 0 <= i < j < |r|
        ensures r[i].code != r[j].code
      {
        assert r[j] == tail[j - 1] && tail[j - 1].code in rest;
        if i > 0 {
          assert r[i] == tail[i - 1];
        }
      }
    }
  }

  /** `getAllLinks`: every record, newest first. */
  ghost function GetAllLinks(store: Store): (r: Response)
    requires KeyedByCode(store)
    ensures r.status == StatusOk && r.body.Records?
    ensures |r.body.links| == |store|
    ensures forall i :: 0 <= i < |r.body.links| ==> r.body.links[i] in store.Values
    ensures ListsEveryRecord(store, r.body.links)
    ensures HasDistinctCodes(r.body.links)
    ensures IsNewestFirst(r.body.links)
  {
    NewestFirstIsSorted(store);
    NewestFirstListsEveryRecord(store);
    NewestFirstHasDistinctCodes(store);
    Response(StatusOk, Records(NewestFirst(store)))
  }

  // ---------------------------------------------------------------------
  // Redirecting

  /** The atomic update: one more click, the visit time, and the
      `updatedAt` timestamp the schema maintains on updates. */
  function Tally(l: Link, now: nat): Link {
    l.(clicks := l.clicks + 1, lastClicked := Some(now), updatedAt := now)
  }

  /** `redirectLink`: count the visit and send 302 to the target, or the
      plain-text 404. */
  function RedirectLinkOutcome(store: Store, code: string, now: nat): (r: Outcome)
    ensures code !in store ==> r == Outcome(Response(StatusNotFound, Failure(PageNotFound)), store)
    ensures code in store ==>
      && r.response == Response(StatusFound, RedirectTo(store[code].target))
      && r.store.Keys == store.Keys
      && r.store[code].clicks == store[code].clicks + 1
      && r.store[code].lastClicked == Some(now)
      && r.store[code].updatedAt == now
      && r.store[code].code == store[code].code
      && r.store[code].target == store[code].target
      && r.store[code].createdAt == store[code].createdAt
      && (forall k :: k in store && k != code ==> r.store[k] == store[k])
  {
    if code in store then
      var l := Tally(store[code], now);
      Outcome(Response(StatusFound, RedirectTo(l.target)), store[code := l])
    else
      Outcome(Response(StatusNotFound, Failure(PageNotFound)), store)
  }

  lemma RedirectPreservesInvariant(store: Store, code: string, now: nat)
    requires StoreInvariant(store)
    ensures StoreInvariant(RedirectLinkOutcome(store, code, now).store)
  {
  }

  /** The store after a visit of `code` at each of `times`, in order. */
  function Visits(store: Store, code: string, times: seq<nat>): Store
    decreases |times|
  {
    if times == [] then store
    else Visits(RedirectLinkOutcome(store, code, times[0]).store, code, times[1..])
  }

  /** N visits of a stored code add exactly N clicks, stamp the last visit
      time, and leave the target, the creation time and every other record
      alone. */
  lemma {:induction false} VisitsCountEachClick(store: Store, code: string, times: seq<nat>)
    requires code in store
    ensures var s := Visits(store, code, times);
      && s.Keys == store.Keys
      && s[code].clicks == store[code].clicks + |times|
      && (times != [] ==> s[code].lastClicked == Some(times[|times| - 1]))
      && s[code].target == store[code].target
      && s[code].createdAt == store[code].createdAt
      && (forall k :: k in store && k != code ==> s[k] == store[k])
    decreases |times|
  {
    if times != [] {
      var next := RedirectLinkOutcome(store, code, times[0]).store;
      VisitsCountEachClick(next, code, times[1..]);
      if |times| > 1 {
        assert times[1..][|times[1..]| - 1] == times[|times| - 1];
      }
    }
  }

  // ---------------------------------------------------------------------
  // Deleting

  /** `deleteLink`: remove the record, or a 404 if there is none. */
  function DeleteLinkOutcome(store: Store, code: string): (r: Outcome)
    ensures code !in store ==> r == Outcome(Response(StatusNotFound, Failure(LinkNotFound)), store)
    ensures code in store ==>
      && r.response == Response(StatusOk, Deleted)
      && r.store.Keys == store.Keys - {code}
      && |r.store| == |store| - 1
      && (forall k :: k in r.store ==> r.store[k] == store[k])
  {
    if code in store then
      var s := store - {code};
      assert s.Keys == store.Keys - {code};
      Outcome(Response(StatusOk, Deleted), s)
    else
      Outcome(Response(StatusNotFound, Failure(LinkNotFound)), store)
  }

  lemma DeletePreservesInvariant(store: Store, code: string)
    requires StoreInvariant(store)
    ensures StoreInvariant(DeleteLinkOutcome(store, code).store)
  {
  }

  /** Once deleted, a code is gone: reading it, deleting it again and
      visiting it are all 404s that change nothing. */
  lemma DeletedCodeIsGone(store: Store, code: string, now: nat)
    requires DeleteLinkOutcome(store, code).response.status == StatusOk
    ensures var s := DeleteLinkOutcome(store, code).store;
      && code !in s
      && GetLinkStats(s, code) == Response(StatusNotFound, Failure(LinkNotFound))
      && DeleteLinkOutcome(s, code) == Outcome(Response(StatusNotFound, Failure(LinkNotFound)), s)
      && RedirectLinkOutcome(s, code, now) == Outcome(Response(StatusNotFound, Failure(PageNotFound)), s)
  {
  }

  // ---------------------------------------------------------------------
  // The shared store

  /** The link collection, updated in place by the handlers that write. */
  class LinkStore {
    var links: Store

    ghost predicate Valid()
      reads this
    {
      StoreInvariant(links)
    }

    constructor ()
      ensures Valid() && links == map[]
    {
      links := map[];
    }

    /** The generation loop of `createLink`: draw codes until one is not
        stored, and return it. */
    method GenerateUnusedCode(attempts: seq<seq<real>>) returns (code: string)
      requires AreDrawSequences(attempts) && HasFreeAttemptFrom(attempts, links, 0)
      ensures code == CodeFromDraws(attempts[FirstFreeAttempt(attempts, links, 0)])
      ensures code !in links && |code| == CodeLength && ValidCode(code)
    {
      var isUnique := false;
      var i := 0;
      code := "";
      while !isUnique
        invariant 0 <= i <= |attempts|
        invariant !isUnique ==> HasFreeAttemptFrom(attempts, links, i)
        invariant !isUnique ==> forall j :: 0 <= j < i ==> CodeFromDraws(attempts[j]) in links
        invariant isUnique ==> 0 < i && code == CodeFromDraws(attempts[i - 1]) && code !in links
        invariant isUnique ==> forall j :: 0 <= j < i - 1 ==> CodeFromDraws(attempts[j]) in links
        invariant isUnique ==> |code| == CodeLength && ValidCode(code)
        decreases |attempts| - i
      {
        code := GenerateCode(attempts[i]);
        isUnique := code !in links;
        i := i + 1;
      }
      assert FirstFreeAttempt(attempts, links, 0) == i - 1;
    }

    /** `createLink`. */
    method CreateLink(target: Option<string>, code: Option<string>, parsesAsUrl: string -> bool,
                      attempts: seq<seq<real>>, now: nat) returns (response: Response)
      requires Valid()
      requires CreateRequires(links, target, code, parsesAsUrl, attempts)
      modifies this
      ensures Valid()
      ensures Outcome(response, links) == CreateLinkOutcome(old(links), target, code, parsesAsUrl, attempts, now)
    {
      CreatePreservesInvariant(links, target, code, parsesAsUrl, attempts, now);
      if !TargetParses(target, parsesAsUrl) {
        return Response(StatusBadRequest, Failure(InvalidUrl));
      }
      var c: string;
      if IsTruthy(code) {
        c := code.value;
        if !ValidCode(c) {
          return Response(StatusBadRequest, Failure(InvalidCodeFormat));
        }
        if c in links {
          return Response(StatusConflict, Failure(CodeInUse));
        }
      } else {
        c := GenerateUnusedCode(attempts);
      }
      assert CreateLinkOutcome(links, target, code, parsesAsUrl, attempts, now) == Insert(links, c, target.value, now);
      match Save(links, c, target.value, now)
      case Ok(l) =>
        links := links[l.code := l];
        response := Response(StatusCreated, Record(l));
      case Err(_) =>
        response := Response(StatusServerError, Failure(ServerError));
    }

    /** `redirectLink`. */
    method RedirectLink(code: string, now: nat) returns (response: Response)
      requires Valid()
      modifies this
      ensures Valid()
      ensures Outcome(response, links) == RedirectLinkOutcome(old(links), code, now)
    {
      RedirectPreservesInvariant(links, code, now);
      if code in links {
        var l := Tally(links[code], now);
        links := links[code := l];
        response := Response(StatusFound, RedirectTo(l.target));
      } else {
        response := Response(StatusNotFound, Failure(PageNotFound));
      }
    }

    /** `deleteLink`. */
    method DeleteLink(code: string) returns (response: Response)
      requires Valid()
      modifies this
      ensures Valid()
      ensures Outcome(response, links) == DeleteLinkOutcome(old(links), code)
    {
      DeletePreservesInvariant(links, code);
      if code in links {
        links := links - {code};
        response := Response(StatusOk, Deleted);
      } else {
        response := Response(StatusNotFound, Failure(LinkNotFound));
      }
    }
  }
}
