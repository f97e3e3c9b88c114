/**
 * The decision logic of `loadMenuFromGoogleDoc` (helpers/menu.js:22-118):
 * show a cached copy first, fetch the published document, re-render and
 * store it when it differs from the cache, fall back to the static menu only
 * when there is nothing to show, and re-poll up to three times when the
 * fresh text hashes like the cache.
 *
 * The network is replaced by the replies it gives: the reply to the first
 * request and the replies to the three re-polls, in order. The page is the
 * visibility of the three elements, the stored copy, the text last rendered
 * into the dynamic element (which then shows `MenuParser.Parse` of it), and counters of
 * requests and storage writes.
 */
module RefreshScheduler {
  import opened Options
  import opened ChangeDetector

  /** How many re-polls `tick` makes at most (`maxTries`). */
  const MaxTries: nat := 3

  /** What a request yields: a response with its status and body, or a failure before any response. */
  datatype Reply = Response(status: nat, body: string) | Timeout | NetworkError

  /** `res.ok`: a response with a status in the range 200-299. */
  predicate Ok(r: Reply) {
    r.Response? && 200 <= r.status <= 299
  }

  /**
   * The page as far as the loader can see and change it: whether each of the
   * loading, dynamic and fallback elements is shown (the negation of its
   * `hidden` property), the stored copy under the cache
   * key, the text last rendered into the dynamic element, how many requests
   * were made, and the values written to storage, in order.
   */
  datatype PageState = PageState(
    loading: bool, dynamic: bool, fallback: bool,
    storage: Option<string>, rendered: Option<string>,
    requests: nat, writes: seq<string>)

  /** `if (cached)`: a stored copy that is there and not empty. */
  predicate Present(cached: Option<string>) {
    cached.Some? && cached.value != []
  }

  /** `cached || ""`. */
  function Baseline(cached: Option<string>): string {
    if Present(cached) then cached.value else []
  }

  /** `renderStructuredMenu(text)` followed by `localStorage.setItem(CACHE_KEY, text)`. */
  function Store(s: PageState, text: string): PageState {
    s.(rendered := Some(text), storage := Some(text), writes := s.writes + [text])
  }

  /** The 32-bit FNV-1a value behind `menuHash(s)`. */
  function HashValue(s: string): nat {
    Fnv1a(Utf16(s))
  }

  /**
   * The rules below hold for any change digest `hash`; the page uses
   * `HashValue`. Comparing digests compares `HashValue`s (`DigestEqual`).
   */
  type Hasher = string -> nat

  /** A re-poll reply that ends the re-polling: a response whose body hashes differently from `nowHash`. */
  predicate Changed(hash: Hasher, r: Reply, nowHash: nat) {
    Ok(r) && hash(r.body) != nowHash
  }

  /** The first reply that ends the re-polling. */
  function FirstChange(hash: Hasher, replies: seq<Reply>, nowHash: nat): (r: Option<nat>)
    ensures r.Some? ==> r.value < |replies| && Changed(hash, replies[r.value], nowHash)
    ensures r.Some? ==> forall j :: 0 <= j < r.value ==> !Changed(hash, replies[j], nowHash)
    ensures r.None? ==> forall j :: 0 <= j < |replies| ==> !Changed(hash, replies[j], nowHash)
  {
    if replies == [] then None
    else if Changed(hash, replies[0], nowHash) then Some(0)
    else match FirstChange(hash, replies[1..], nowHash)
      case Some(i) => Some(i + 1)
      case None => None
  }

  /** The `tick` calls: one request each, stopping after the first changed reply, which is rendered and stored. */
  function Repoll(hash: Hasher, s: PageState, nowHash: nat, replies: seq<Reply>): (r: PageState)
    ensures r.loading == s.loading && r.dynamic == s.dynamic && r.fallback == s.fallback
    ensures s.requests <= r.requests <= s.requests + |replies|
    decreases |replies|
  {
    if replies == [] then s
    else
      var s' := s.(requests := s.requests + 1);
      if Changed(hash, replies[0], nowHash) then Store(s', replies[0].body)
      else Repoll(hash, s', nowHash, replies[1..])
  }

  /** The page after showing the cached copy, if there is one (helpers/menu.js:35-51). */
  function ShowCached(s: PageState): PageState {
    var s0 := s.(loading := true, dynamic := false, fallback := false);
    if Present(s.storage) then s0.(rendered := s.storage, loading := false, dynamic := true)
    else s0
  }

  /**
   * Showing the cached copy: a non-empty copy is rendered and the dynamic
   * menu replaces the loading message; otherwise only the loading message
   * shows. Storage and requests are untouched.
   */
  lemma ShowCachedFacts(s: PageState)
    ensures var r := ShowCached(s);
      && r.storage == s.storage && r.writes == s.writes && r.requests == s.requests && !r.fallback
      && (Present(s.storage) ==> !r.loading && r.dynamic && r.rendered == s.storage)
      && (!Present(s.storage) ==> r.loading && !r.dynamic && r.rendered == s.rendered)
  {
  }

  /** Whether re-polling starts: the first request succeeded and its text hashes like the cache (helpers/menu.js:86-88). */
  predicate Repolls(hash: Hasher, cached: Option<string>, first: Reply) {
    Ok(first) && hash(Baseline(cached)) == hash(first.body)
  }

  /** The page once the first request has been made. */
  function Requested(s: PageState): PageState {
    ShowCached(s).(requests := s.requests + 1)
  }

  /** The page after a failed first request: the fallback only when no cached copy is showing (helpers/menu.js:64-69). */
  function AfterFailure(s: PageState): PageState {
    var s1 := Requested(s);
    if Present(s.storage) then s1 else s1.(loading := false, fallback := true)
  }

  /**
   * The page after the first request returned `latest`: rendered and stored
   * when it differs from the cached string (helpers/menu.js:71-80), then the
   * dynamic menu shown (helpers/menu.js:82-83).
   */
  function AfterFirst(s: PageState, latest: string): PageState {
    var s1 := Requested(s);
    var s2 := if s.storage != Some(latest) then Store(s1, latest) else s1;
    s2.(loading := false, dynamic := true)
  }

  /** The whole of `loadMenuFromGoogleDoc`, from the page before it to the page after the last re-poll. */
  function Load(hash: Hasher, s: PageState, first: Reply, repolls: seq<Reply>): PageState
    requires |repolls| == MaxTries
  {
    if !Ok(first) then AfterFailure(s)
    else
      var a := AfterFirst(s, first.body);
      if Repolls(hash, s.storage, first) then Repoll(hash, a, hash(first.body), repolls) else a
  }

  // ---------------------------------------------------------------------
  // The page as a mutable object

  class MenuPage {
    var loadingVisible: bool
    var dynamicVisible: bool
    var fallbackVisible: bool
    var storage: Option<string>
    /** The text last rendered into the dynamic element, which then holds `MenuParser.Parse` of it. */
    var rendered: Option<string>
    var requests: nat
    var writes: seq<string>

    function View(): PageState
      reads this
    {
      PageState(loadingVisible, dynamicVisible, fallbackVisible, storage, rendered, requests, writes)
    }

    /** A page whose storage holds `stored` under the cache key, before any loading. */
    constructor (stored: Option<string>)
      ensures View() == PageState(false, false, false, stored, None, 0, [])
    {
      loadingVisible, dynamicVisible, fallbackVisible := false, false, false;
      storage, rendered := stored, None;
      requests, writes := 0, [];
    }

    /** `localStorage.setItem(CACHE_KEY, text)`. */
    method SetItem(text: string)
      modifies this
      ensures View() == old(View()).(storage := Some(text), writes := old(writes) + [text])
    {
      storage := Some(text);
      writes := writes + [text];
    }

    /** `renderStructuredMenu(text)`: the dynamic element now holds `MenuParser.Parse(text)`. */
    method Render(text: string)
      modifies this
      ensures View() == old(View()).(rendered := Some(text))
    {
      rendered := Some(text);
    }

    /** Shows the loading element, then the cached copy if there is one (helpers/menu.js:35-51). */
    method ShowCachedCopy()
      modifies this
      ensures View() == ShowCached(old(View()))
    {
      loadingVisible := true;
      dynamicVisible, fallbackVisible := false, false;
      var cached := storage;
      if Present(cached) {
        Render(cached.value);
        loadingVisible := false;
        dynamicVisible := true;
      }
    }

    /** `menuHash(text) !== nowHash`, where `nowHash` is the digest of `latest`. */
    method DigestDiffers(text: string, nowHash: string, ghost latest: string) returns (differs: bool)
      requires nowHash == Digest(latest)
      ensures differs <==> HashValue(text) != HashValue(latest)
    {
      var h := MenuHash(text);
      DigestEqual(text, latest);
      differs := h != nowHash;
    }

    /**
     * The `tick` rounds (helpers/menu.js:90-116): up to `MaxTries` requests,
     * stopping at the first response whose digest differs from `nowHash`,
     * which is rendered and stored; failures are passed over.
     */
    method RepollUntilChanged(nowHash: string, ghost latest: string, repolls: seq<Reply>)
      requires nowHash == Digest(latest) && |repolls| == MaxTries
      modifies this
      ensures View() == Repoll(HashValue, old(View()), HashValue(latest), repolls)
    {
      ghost var nowValue := HashValue(latest);
      ghost var target := Repoll(HashValue, View(), nowValue, repolls);
      var tries := 0;
      var stop := false;
      while !stop && tries < MaxTries
        invariant 0 <= tries <= MaxTries
        invariant !stop ==> Repoll(HashValue, View(), nowValue, repolls[tries..]) == target
        invariant stop ==> View() == target
        decreases MaxTries - tries, !stop
      {
        ghost var v := View();
        ghost var rest := repolls[tries..];
        assert rest[0] == repolls[tries] && rest[1..] == repolls[tries + 1..];
        RepollStep(HashValue, v, nowValue, rest);
        tries := tries + 1;
        requests := requests + 1;
        assert View() == v.(requests := v.requests + 1);
        var reply := repolls[tries - 1];
        if Ok(reply) {
          var text := reply.body;
          var changed := DigestDiffers(text, nowHash, latest);
          if changed {
            Render(text);
            SetItem(text);
            stop := true;
            assert View() == Store(v.(requests := v.requests + 1), text);
          }
        }
      }
      if !stop {
        assert repolls[tries..] == [];
      }
    }

    /**
     * `loadMenuFromGoogleDoc` (helpers/menu.js:22-118), given the reply to
     * the first request and the replies to the re-polls.
     */
    method LoadMenu(first: Reply, repolls: seq<Reply>)
      requires |repolls| == MaxTries
      modifies this
      ensures View() == Load(HashValue, old(View()), first, repolls)
    {
      ghost var s := View();
      var cached := storage;
      ShowCachedCopy();
      requests := requests + 1;
      assert View() == Requested(s);
      if !Ok(first) {
        if !Present(cached) {
          loadingVisible := false;
          fallbackVisible := true;
        }
        return;
      }
      var latest := first.body;
      if cached != Some(latest) {
        Render(latest);
        SetItem(latest);
        assert View() == Store(Requested(s), latest);
      }
      loadingVisible := false;
      dynamicVisible := true;
      assert View() == AfterFirst(s, latest);
      var nowHash := MenuHash(latest);
      var changed := DigestDiffers(Baseline(cached), nowHash, latest);
      if !changed {
        RepollUntilChanged(nowHash, latest, repolls);
      }
    }
  }

  // ---------------------------------------------------------------------
  // What the loader promises

  /** The fallback is shown exactly when the first request fails and no non-empty cached copy exists. */
  lemma FallbackRule(hash: Hasher, s: PageState, first: Reply, repolls: seq<Reply>)
    requires |repolls| == MaxTries
    ensures Load(hash, s, first, repolls).fallback <==> !Ok(first) && !Present(s.storage)
  {
  }

  /** Loading ends hidden, and exactly one of the dynamic menu and the fallback is visible. */
  lemma VisibilityRule(hash: Hasher, s: PageState, first: Reply, repolls: seq<Reply>)
    requires |repolls| == MaxTries
    ensures var r := Load(hash, s, first, repolls); !r.loading && (r.dynamic <==> !r.fallback)
  {
  }

  /**
   * A failed first request changes neither storage nor, when a cached copy
   * is showing, what is shown; without one the fallback replaces the
   * loading message.
   */
  lemma FailureRule(hash: Hasher, s: PageState, first: Reply, repolls: seq<Reply>)
    requires |repolls| == MaxTries && !Ok(first)
    ensures var r := Load(hash, s, first, repolls);
      && r.storage == s.storage && r.writes == s.writes && r.requests == s.requests + 1
      && (Present(s.storage) ==> r.dynamic && r.rendered == s.storage)
      && (!Present(s.storage) ==> r.fallback && r.rendered == s.rendered)
  {
  }

  /** What the page is after the first response, before any re-poll. */
  lemma AfterFirstFacts(s: PageState, latest: string)
    ensures var a := AfterFirst(s, latest);
      && !a.loading && a.dynamic && !a.fallback
      && a.storage == Some(latest) && a.requests == s.requests + 1
      && a.writes == s.writes + (if s.storage != Some(latest) then [latest] else [])
      && (!(s.storage == Some([]) && latest == []) ==> a.rendered == Some(latest))
      && (s.storage == Some([]) && latest == [] ==> a.rendered == s.rendered)
  {
  }

  /** One `tick`: its request, then either the changed reply stored or the remaining ticks. */
  lemma RepollStep(hash: Hasher, s: PageState, nowHash: nat, replies: seq<Reply>)
    requires replies != []
    ensures Changed(hash, replies[0], nowHash) ==>
      Repoll(hash, s, nowHash, replies) == Store(s.(requests := s.requests + 1), replies[0].body)
    ensures !Changed(hash, replies[0], nowHash) ==>
      Repoll(hash, s, nowHash, replies) == Repoll(hash, s.(requests := s.requests + 1), nowHash, replies[1..])
  {
  }

  /** What `Repoll` does, in terms of the first reply that ends it. */
  lemma RepollOutcome(hash: Hasher, s: PageState, nowHash: nat, replies: seq<Reply>)
    ensures match FirstChange(hash, replies, nowHash)
      case Some(i) => Repoll(hash, s, nowHash, replies) == Store(s.(requests := s.requests + i + 1), replies[i].body)
      case None => Repoll(hash, s, nowHash, replies) == s.(requests := s.requests + |replies|)
  {
    match FirstChange(hash, replies, nowHash)
    case Some(i) => RepollStopsAt(hash, s, nowHash, replies, i);
    case None => RepollRunsOut(hash, s, nowHash, replies);
  }

  /** The re-polling stops at the first changed reply, after one request per reply up to it, and stores its text. */
  lemma {:induction false} RepollStopsAt(hash: Hasher, s: PageState, nowHash: nat, replies: seq<Reply>, i: nat)
    requires FirstChange(hash, replies, nowHash) == Some(i)
    ensures Repoll(hash, s, nowHash, replies) == Store(s.(requests := s.requests + i + 1), replies[i].body)
    decreases |replies|
  {
    var s' := s.(requests := s.requests + 1);
    RepollStep(hash, s, nowHash, replies);
    if i > 0 {
      assert !Changed(hash, replies[0], nowHash);
      assert FirstChange(hash, replies[1..], nowHash) == Some(i - 1);
      RepollStopsAt(hash, s', nowHash, replies[1..], i - 1);
      assert replies[1..][i - 1] == replies[i];
      assert s'.(requests := s'.requests + (i - 1) + 1) == s.(requests := s.requests + i + 1);
    }
  }

  /** Without a changed reply the re-polling makes one request per reply and changes nothing else. */
  lemma {:induction false} RepollRunsOut(hash: Hasher, s: PageState, nowHash: nat, replies: seq<Reply>)
    requires FirstChange(hash, replies, nowHash) == None
    ensures Repoll(hash, s, nowHash, replies) == s.(requests := s.requests + |replies|)
    decreases |replies|
  {
    if replies != [] {
      var s' := s.(requests := s.requests + 1);
      RepollStep(hash, s, nowHash, replies);
      assert !Changed(hash, replies[0], nowHash);
      assert FirstChange(hash, replies[1..], nowHash) == None;
      RepollRunsOut(hash, s', nowHash, replies[1..]);
      assert s'.(requests := s'.requests + |replies[1..]|) == s.(requests := s.requests + |replies|);
    }
  }

  /** How many re-polls a load makes: none unless the hashes agree, else up to and including the first changed reply. */
  function Attempts(hash: Hasher, s: PageState, first: Reply, repolls: seq<Reply>): (n: nat)
    ensures n <= |repolls|
  {
    if !Repolls(hash, s.storage, first) then 0
    else match FirstChange(hash, repolls, hash(first.body))
      case Some(i) => i + 1
      case None => |repolls|
  }

  /** The page after a successful first request, in terms of the first re-poll reply that ends the re-polling. */
  lemma LoadRepollOutcome(hash: Hasher, s: PageState, first: Reply, repolls: seq<Reply>)
    requires |repolls| == MaxTries && Ok(first)
    ensures var a := AfterFirst(s, first.body);
      if !Repolls(hash, s.storage, first) then Load(hash, s, first, repolls) == a
      else match FirstChange(hash, repolls, hash(first.body))
        case Some(i) => Load(hash, s, first, repolls) == Store(a.(requests := a.requests + i + 1), repolls[i].body)
        case None => Load(hash, s, first, repolls) == a.(requests := a.requests + MaxTries)
  {
    if Repolls(hash, s.storage, first) {
      RepollOutcome(hash, AfterFirst(s, first.body), hash(first.body), repolls);
    }
  }

  /** One request, then the re-polls: never more than `1 + MaxTries` requests, and re-polls only when the hashes agree. */
  lemma RequestsRule(hash: Hasher, s: PageState, first: Reply, repolls: seq<Reply>)
    requires |repolls| == MaxTries
    ensures Load(hash, s, first, repolls).requests == s.requests + 1 + Attempts(hash, s, first, repolls)
    ensures Load(hash, s, first, repolls).requests <= s.requests + 1 + MaxTries
    ensures Load(hash, s, first, repolls).requests > s.requests + 1 ==> Repolls(hash, s.storage, first)
  {
    if Ok(first) {
      AfterFirstFacts(s, first.body);
      LoadRepollOutcome(hash, s, first, repolls);
    }
  }

  /**
   * Storage is written with the fresh text only when it differs from the
   * cached string, and with a re-polled text only when that is the first
   * whose hash differs; a failed first request writes nothing.
   */
  lemma WritesRule(hash: Hasher, s: PageState, first: Reply, repolls: seq<Reply>)
    requires |repolls| == MaxTries
    ensures !Ok(first) ==> Load(hash, s, first, repolls).writes == s.writes
    ensures Ok(first) ==> (Load(hash, s, first, repolls).writes ==
      s.writes
      + (if s.storage != Some(first.body) then [first.body] else [])
      + (if Repolls(hash, s.storage, first) && FirstChange(hash, repolls, hash(first.body)).Some?
         then [repolls[FirstChange(hash, repolls, hash(first.body)).value].body] else []))
  {
    if Ok(first) {
      var fc := FirstChange(hash, repolls, hash(first.body));
      if Repolls(hash, s.storage, first) && fc.Some? {
        WritesWithChange(hash, s, first, repolls, fc.value);
      } else {
        WritesWithoutChange(hash, s, first, repolls);
      }
    }
  }

  lemma WritesWithChange(hash: Hasher, s: PageState, first: Reply, repolls: seq<Reply>, i: nat)
    requires |repolls| == MaxTries && Ok(first) && Repolls(hash, s.storage, first)
    requires FirstChange(hash, repolls, hash(first.body)) == Some(i)
    ensures Load(hash, s, first, repolls).writes ==
      s.writes + (if s.storage != Some(first.body) then [first.body] else []) + [repolls[i].body]
  {
    AfterFirstFacts(s, first.body);
    LoadRepollOutcome(hash, s, first, repolls);
  }

  lemma WritesWithoutChange(hash: Hasher, s: PageState, first: Reply, repolls: seq<Reply>)
    requires |repolls| == MaxTries && Ok(first)
    requires !(Repolls(hash, s.storage, first) && FirstChange(hash, repolls, hash(first.body)).Some?)
    ensures Load(hash, s, first, repolls).writes ==
      s.writes + (if s.storage != Some(first.body) then [first.body] else [])
  {
    AfterFirstFacts(s, first.body);
    LoadRepollOutcome(hash, s, first, repolls);
  }

  /** Storage holds the last value written, or what it held if nothing was written. */
  lemma StorageIsLastWrite(hash: Hasher, s: PageState, first: Reply, repolls: seq<Reply>)
    requires |repolls| == MaxTries
    ensures var r := Load(hash, s, first, repolls);
      && |s.writes| <= |r.writes| <= |s.writes| + 2 && r.writes[..|s.writes|] == s.writes
      && r.storage == (if |r.writes| == |s.writes| then s.storage else Some(r.writes[|r.writes| - 1]))
  {
    if Ok(first) {
      AfterFirstFacts(s, first.body);
      LoadRepollOutcome(hash, s, first, repolls);
    }
  }

  /**
   * Whenever the dynamic menu is visible it shows the stored copy, except
   * when an empty stored string meets an empty fresh text: that string is
   * neither rendered as a cache nor different from the fresh text.
   */
  lemma ShownIsStored(hash: Hasher, s: PageState, first: Reply, repolls: seq<Reply>)
    requires |repolls| == MaxTries
    requires !(s.storage == Some([]) && Ok(first) && first.body == [])
    ensures var r := Load(hash, s, first, repolls);
      r.dynamic ==> r.storage.Some? && r.rendered == r.storage
  {
    if Ok(first) {
      AfterFirstFacts(s, first.body);
      LoadRepollOutcome(hash, s, first, repolls);
    }
  }

  /**
   * The exception: an empty stored string and an empty fresh text make the
   * dynamic element visible with nothing rendered by this load, and start
   * the re-polling, since both hash alike.
   */
  lemma EmptyCacheEmptyText(hash: Hasher, s: PageState, first: Reply, repolls: seq<Reply>)
    requires |repolls| == MaxTries
    requires s.storage == Some([]) && Ok(first) && first.body == []
    ensures Repolls(hash, s.storage, first)
    ensures var a := AfterFirst(s, first.body);
      a.dynamic && a.rendered == s.rendered && a.storage == s.storage && a.writes == s.writes
    ensures FirstChange(hash, repolls, hash([])).None? ==> Load(hash, s, first, repolls).rendered == s.rendered
  {
    AfterFirstFacts(s, first.body);
    LoadRepollOutcome(hash, s, first, repolls);
  }
}
