/**
 * The link store as a value (the nickname -> URL -> link map that the service
 * loads and saves) and the effect of each service operation on it.
 */
module LinkStore {
  import opened Wrappers
  import opened ShortLinks

  /** Owner nickname -> original URL -> link. */
  type Store = map<string, map<string, Link>>

  // ---------------------------------------------------------------------------
  // Nested-map updates.

  /** Store `v` under (owner, url), creating the owner's map when it is missing. */
  function Put(s: Store, owner: string, url: string, v: Link): (r: Store)
    ensures r.Keys == s.Keys + {owner}
    ensures url in r[owner] && r[owner][url] == v
    ensures owner in s ==> r[owner].Keys == s[owner].Keys + {url}
    ensures owner !in s ==> r[owner].Keys == {url}
    ensures forall o, u :: o in s && u in s[o] && (o != owner || u != url) ==> o in r && u in r[o] && r[o][u] == s[o][u]
    ensures forall o :: o in s && o != owner ==> r[o] == s[o]
  {
    s[owner := (if owner in s then s[owner] else map[])[url := v]]
  }

  /** Remove (owner, url), and the owner too when nothing else of theirs is left. */
  function RemoveEntry(s: Store, owner: string, url: string): (r: Store)
    requires owner in s && url in s[owner]
    ensures owner in r <==> s[owner].Keys != {url}
    ensures r.Keys - {owner} == s.Keys - {owner}
    ensures owner in r ==> r[owner].Keys == s[owner].Keys - {url}
    ensures forall o, u :: o in r && u in r[o] ==> o in s && u in s[o] && r[o][u] == s[o][u]
    ensures forall o, u :: o in s && u in s[o] && (o != owner || u != url) ==> o in r && u in r[o]
  {
    var rest := s[owner] - {url};
    assert rest.Keys == s[owner].Keys - {url};
    if rest == map[] then
      assert rest.Keys == {};
      assert s[owner].Keys == {url};
      s - {owner}
    else
      s[owner := rest]
  }

  // ---------------------------------------------------------------------------
  // Queries.

  ghost predicate LinkAt(s: Store, owner: string, url: string, code: string) {
    owner in s && url in s[owner] && s[owner][url].shortCode == code
  }

  ghost predicate HasCode(s: Store, code: string) {
    exists owner, url :: LinkAt(s, owner, url, code)
  }

  /** Every short code in the store (getAllExistingCodes). */
  function AllCodes(s: Store): set<string> {
    set owner, url | owner in s && url in s[owner] :: s[owner][url].shortCode
  }

  /** The code set holds exactly the codes some link carries. */
  lemma AllCodesMeaning(s: Store)
    ensures forall code :: code in AllCodes(s) <==> HasCode(s, code)
  {
    forall code | HasCode(s, code) ensures code in AllCodes(s) {
      var owner, url :| LinkAt(s, owner, url, code);
    }
    forall code | code in AllCodes(s) ensures HasCode(s, code) {
      var owner, url :| owner in s && url in s[owner] && s[owner][url].shortCode == code;
      assert LinkAt(s, owner, url, code);
    }
  }

  // ---------------------------------------------------------------------------
  // What the service keeps true of the store.

  /** Each link is filed under its own owner and its own URL: one link per (owner, URL). */
  ghost predicate KeysMatch(s: Store) {
    forall owner, url :: owner in s && url in s[owner] ==>
      s[owner][url].userNickname == owner && s[owner][url].originalUrl == url
  }

  /** Owners whose map became empty are pruned. */
  ghost predicate NoEmptyOwner(s: Store) {
    forall owner :: owner in s ==> s[owner] != map[]
  }

  /** No two links share a short code. */
  ghost predicate UniqueCodes(s: Store) {
    forall o1, u1, o2, u2 ::
      o1 in s && u1 in s[o1] && o2 in s && u2 in s[o2] && s[o1][u1].shortCode == s[o2][u2].shortCode
      ==> o1 == o2 && u1 == u2
  }

  /** Clicks never pass a set limit, and a link whose clicks reached its limit is inactive. */
  ghost predicate WithinLimit(l: Link) {
    l.clickLimit.Some? && l.clickCount > 0 ==>
      l.clickCount <= l.clickLimit.value && (l.clickCount == l.clickLimit.value ==> !l.isActive)
  }

  ghost predicate ClicksWithinLimits(s: Store) {
    forall owner, url :: owner in s && url in s[owner] ==> WithinLimit(s[owner][url])
  }

  ghost predicate Consistent(s: Store) {
    KeysMatch(s) && NoEmptyOwner(s) && UniqueCodes(s) && ClicksWithinLimits(s)
  }

  // ---------------------------------------------------------------------------
  // Resolving one link (the checks of getOriginalUrl).

  datatype Resolution = Resolution(link: Link, url: Option<string>)

  /** Expiry first (deactivate), then the limit, then count the click and deactivate on reaching the limit. */
  function Resolve(l: Link, now: int): Resolution {
    if l.IsExpired(now) then
      Resolution(l.(isActive := false), None)
    else if l.IsClickLimitExceeded() then
      Resolution(l, None)
    else
      var clicked := l.(clickCount := l.clickCount + 1);
      if clicked.IsClickLimitExceeded() then
        Resolution(clicked.(isActive := false), Some(l.originalUrl))
      else
        Resolution(clicked, Some(l.originalUrl))
  }

  /** An expired link is deactivated and not resolved, whatever its clicks; nothing else changes. */
  lemma ResolveChecksExpiryFirst(l: Link, now: int)
    requires l.IsExpired(now)
    ensures Resolve(l, now).url.None?
    ensures Resolve(l, now).link == l.(isActive := false)
    ensures Resolve(l, now).link.clickCount == l.clickCount
  {
  }

  /** A live link whose limit is already reached is refused and left as it is. */
  lemma ResolveRefusesAtLimit(l: Link, now: int)
    requires !l.IsExpired(now) && l.IsClickLimitExceeded()
    ensures Resolve(l, now) == Resolution(l, None)
  {
  }

  /**
   * A successful resolution returns the original URL, counts exactly one click,
   * cannot take the count past a set limit, and deactivates the link exactly
   * when the new count reaches the limit.
   */
  lemma ResolveCountsOneClick(l: Link, now: int)
    requires !l.IsExpired(now) && !l.IsClickLimitExceeded()
    ensures var r := Resolve(l, now);
      && r.url == Some(l.originalUrl)
      && r.link.clickCount == l.clickCount + 1
      && (r.link.clickLimit.Some? ==> r.link.clickCount <= r.link.clickLimit.value)
      && (r.link.isActive <==> l.isActive && !r.link.IsClickLimitExceeded())
      && r.link == l.(clickCount := l.clickCount + 1, isActive := r.link.isActive)
  {
  }

  /** Resolution succeeds exactly when the link is neither expired nor at its limit; accessible links always resolve. */
  lemma ResolveSucceedsIff(l: Link, now: int)
    ensures Resolve(l, now).url.Some? <==> !l.IsExpired(now) && !l.IsClickLimitExceeded()
    ensures l.CanBeAccessed(now) ==> Resolve(l, now).url == Some(l.originalUrl)
  {
  }

  /** Resolving keeps the click bound and every field other than the count and the flag. */
  lemma ResolveKeepsLimit(l: Link, now: int)
    requires WithinLimit(l)
    ensures WithinLimit(Resolve(l, now).link)
    ensures var r := Resolve(l, now).link;
      r.shortCode == l.shortCode && r.originalUrl == l.originalUrl && r.userNickname == l.userNickname
      && r.clickLimit == l.clickLimit && r.expiresAt == l.expiresAt && r.createdAt == l.createdAt
  {
  }

  /**
   * Losing access is permanent: a link that cannot be accessed now is still
   * inaccessible at any later time after a resolution attempt.
   */
  lemma InaccessibleStaysInaccessible(l: Link, now: int, later: int)
    requires !l.CanBeAccessed(now) && now <= later
    ensures !Resolve(l, now).link.CanBeAccessed(later)
    ensures Resolve(l, now).url.Some? ==> !Resolve(l, now).link.isActive
  {
  }

  /** The link after `k` resolutions in a row at the same time. */
  function ResolveTimes(l: Link, now: int, k: nat): Link
    decreases k
  {
    if k == 0 then l else ResolveTimes(Resolve(l, now).link, now, k - 1)
  }

  /**
   * Repeated resolution: with limit L, the count climbs by one per call until
   * it reaches L and then stays there; without a limit every call counts.
   */
  lemma {:induction false} ResolveTimesCount(l: Link, now: int, k: nat)
    requires !l.IsExpired(now)
    ensures l.clickLimit.None? ==> ResolveTimes(l, now, k).clickCount == l.clickCount + k
    ensures l.clickLimit.Some? && l.clickCount <= l.clickLimit.value ==>
      ResolveTimes(l, now, k).clickCount == if l.clickCount + k <= l.clickLimit.value
                                            then l.clickCount + k else l.clickLimit.value
    decreases k
  {
    if k > 0 {
      ResolveTimesCount(Resolve(l, now).link, now, k - 1);
    }
  }

  /** The example of a limit of 2: two resolutions succeed, the second deactivates, the third is refused. */
  lemma LimitOfTwoExample(l: Link, now: int)
    requires l.clickLimit == Some(2) && l.clickCount == 0 && l.isActive && !l.IsExpired(now)
    ensures var first := Resolve(l, now);
      var second := Resolve(first.link, now);
      var third := Resolve(second.link, now);
      && first.url == Some(l.originalUrl) && first.link.clickCount == 1 && first.link.isActive
      && second.url == Some(l.originalUrl) && second.link.clickCount == 2 && !second.link.isActive
      && third.url.None? && third.link == second.link
  {
  }

  // ---------------------------------------------------------------------------
  // Link status (getLinkStatus).

  /** The outcome getLinkStatus reports; its text formatting is not modelled. */
  datatype LinkStatus = NotFound | Expired | LimitExhausted | Active(clicks: nat, limit: Option<int>)

  function StatusOf(l: Link, now: int): (st: LinkStatus)
    ensures st != NotFound
  {
    if l.IsExpired(now) then Expired
    else if l.IsClickLimitExceeded() then LimitExhausted
    else Active(l.clickCount, l.clickLimit)
  }

  /** The status reports Active exactly when a resolution would succeed, and names the reason when it would not. */
  lemma StatusAgreesWithResolve(l: Link, now: int)
    ensures StatusOf(l, now).Active? <==> Resolve(l, now).url.Some?
    ensures StatusOf(l, now) == Expired <==> l.IsExpired(now)
    ensures StatusOf(l, now) == LimitExhausted <==> Resolve(l, now) == Resolution(l, None) && !l.IsExpired(now)
  {
  }

  // ---------------------------------------------------------------------------
  // The store-level effects of create, resolve and delete.

  /** getOriginalUrl on a store: the link at (owner, url) carries `code` and is resolved in place. */
  ghost predicate ResolvedAt(before: Store, after: Store, owner: string, url: string,
                             code: string, now: int, result: Option<string>) {
    && LinkAt(before, owner, url, code)
    && after == Put(before, owner, url, Resolve(before[owner][url], now).link)
    && result == Resolve(before[owner][url], now).url
  }

  /** With unique codes, resolving a code has one outcome, whichever way the link is found. */
  lemma ResolvedIsDeterministic(before: Store, a1: Store, a2: Store, code: string, now: int,
                                o1: string, u1: string, r1: Option<string>,
                                o2: string, u2: string, r2: Option<string>)
    requires UniqueCodes(before)
    requires ResolvedAt(before, a1, o1, u1, code, now, r1) && ResolvedAt(before, a2, o2, u2, code, now, r2)
    ensures a1 == a2 && r1 == r2
  {
  }

  lemma ResolvePreservesConsistent(s: Store, owner: string, url: string, now: int)
    requires Consistent(s) && owner in s && url in s[owner]
    ensures Consistent(Put(s, owner, url, Resolve(s[owner][url], now).link))
  {
    var r: Store := Put(s, owner, url, Resolve(s[owner][url], now).link);
    ResolveKeepsLimit(s[owner][url], now);
    assert forall o, u :: o in r && u in r[o] ==> o in s && u in s[o] && r[o][u].shortCode == s[o][u].shortCode;
  }

  /** The link createShortLink stores: expiring `ttl` after `now`. */
  function CreatedLink(code: string, url: string, owner: string, clickLimit: Option<int>,
                       now: int, ttl: int): Link
  {
    NewLink(code, url, owner, clickLimit, now + ttl, now)
  }

  /** Inserting a link under a fresh code and a new (owner, URL) keeps the store consistent. */
  lemma CreatePreservesConsistent(s: Store, owner: string, url: string, code: string,
                                  clickLimit: Option<int>, now: int, ttl: int)
    requires Consistent(s) && code !in AllCodes(s) && !(owner in s && url in s[owner])
    ensures Consistent(Put(s, owner, url, CreatedLink(code, url, owner, clickLimit, now, ttl)))
  {
    var l := CreatedLink(code, url, owner, clickLimit, now, ttl);
    assert !HasCode(s, code) by { AllCodesMeaning(s); }
    PutFreshCodeKeepsUnique(s, owner, url, l);
    PutKeepsShape(s, owner, url, l);
  }

  /** Filing a link under its own owner and URL, within its limit, keeps the other three invariants. */
  lemma PutKeepsShape(s: Store, owner: string, url: string, l: Link)
    requires KeysMatch(s) && NoEmptyOwner(s) && ClicksWithinLimits(s)
    requires l.userNickname == owner && l.originalUrl == url && WithinLimit(l)
    ensures var r := Put(s, owner, url, l); KeysMatch(r) && NoEmptyOwner(r) && ClicksWithinLimits(r)
  {
  }

  /** A link whose code no link carries, put under a new key, keeps codes unique. */
  lemma PutFreshCodeKeepsUnique(s: Store, owner: string, url: string, l: Link)
    requires UniqueCodes(s) && !HasCode(s, l.shortCode) && !(owner in s && url in s[owner])
    ensures UniqueCodes(Put(s, owner, url, l))
  {
    var r := Put(s, owner, url, l);
    forall o, u | o in r && u in r[o] && (o != owner || u != url)
      ensures r[o][u] == s[o][u] && r[o][u].shortCode != l.shortCode
    {
      assert !LinkAt(s, o, u, l.shortCode);
    }
    forall o1, u1, o2, u2 | o1 in r && u1 in r[o1] && o2 in r && u2 in r[o2]
                            && r[o1][u1].shortCode == r[o2][u2].shortCode
      ensures o1 == o2 && u1 == u2
    {
      assert (o1 != owner || u1 != url) && (o2 != owner || u2 != url) ==> s[o1][u1] == r[o1][u1] && s[o2][u2] == r[o2][u2];
    }
  }

  /**
   * Create then resolve: right after creation the new code names exactly one
   * link, and resolving it before expiry returns the URL unless the limit
   * allows no click at all.
   */
  lemma CreateThenResolve(s: Store, owner: string, url: string, code: string,
                          clickLimit: Option<int>, created: int, ttl: int, now: int)
    requires code !in AllCodes(s) && !(owner in s && url in s[owner])
    requires now <= created + ttl && (clickLimit.None? || clickLimit.value > 0)
    ensures var r := Put(s, owner, url, CreatedLink(code, url, owner, clickLimit, created, ttl));
      && LinkAt(r, owner, url, code)
      && (forall o, u :: LinkAt(r, o, u, code) ==> o == owner && u == url)
      && Resolve(r[owner][url], now).url == Some(url)
  {
    var r: Store := Put(s, owner, url, CreatedLink(code, url, owner, clickLimit, created, ttl));
    assert !HasCode(s, code) by { AllCodesMeaning(s); }
    forall o, u | LinkAt(r, o, u, code) ensures o == owner && u == url {
      assert (o, u) != (owner, url) ==> LinkAt(s, o, u, code);
    }
  }

  lemma RemovePreservesConsistent(s: Store, owner: string, url: string)
    requires Consistent(s) && owner in s && url in s[owner]
    ensures Consistent(RemoveEntry(s, owner, url))
  {
  }

  /** After the link under (owner, url) is removed, its code no longer resolves to anything. */
  lemma DeleteThenNotFound(s: Store, owner: string, url: string)
    requires UniqueCodes(s) && owner in s && url in s[owner]
    ensures !HasCode(RemoveEntry(s, owner, url), s[owner][url].shortCode)
  {
    var code := s[owner][url].shortCode;
    var r: Store := RemoveEntry(s, owner, url);
    assert forall o, u :: LinkAt(r, o, u, code) ==> LinkAt(s, o, u, code) && (o, u) != (owner, url);
  }

  // ---------------------------------------------------------------------------
  // The expiry sweep (removeExpiredLinks).

  function Survivors(m: map<string, Link>, now: int): map<string, Link> {
    map url | url in m && !m[url].IsExpired(now) :: m[url]
  }

  ghost predicate AnyExpired(s: Store, now: int) {
    exists owner, url :: owner in s && url in s[owner] && s[owner][url].IsExpired(now)
  }

  /** Drop every expired link and every owner left with nothing. */
  function Prune(s: Store, now: int): Store {
    map owner | owner in s && Survivors(s[owner], now) != map[] :: Survivors(s[owner], now)
  }

  /** removeExpiredLinks: the pruned store is saved only when a link was removed. */
  ghost function Sweep(s: Store, now: int): (r: Store)
    ensures forall o, u :: o in r && u in r[o] ==>
      o in s && u in s[o] && r[o][u] == s[o][u] && !r[o][u].IsExpired(now)
    ensures forall o, u :: o in s && u in s[o] && !s[o][u].IsExpired(now) ==> o in r && u in r[o]
    ensures AnyExpired(s, now) ==> NoEmptyOwner(r)
    ensures !AnyExpired(s, now) ==> r == s
  {
    assert forall o, u :: o in s && u in s[o] && !s[o][u].IsExpired(now) ==> u in Survivors(s[o], now);
    if AnyExpired(s, now) then Prune(s, now) else s
  }

  /** A second sweep at the same time changes nothing. */
  lemma SweepIsIdempotent(s: Store, now: int)
    ensures Sweep(Sweep(s, now), now) == Sweep(s, now)
  {
    var r: Store := Sweep(s, now);
    assert !AnyExpired(r, now);
  }

  lemma SweepPreservesConsistent(s: Store, now: int)
    requires Consistent(s)
    ensures Consistent(Sweep(s, now))
  {
    var r: Store := Sweep(s, now);
    forall o1, u1, o2, u2 | o1 in r && u1 in r[o1] && o2 in r && u2 in r[o2]
                            && r[o1][u1].shortCode == r[o2][u2].shortCode
      ensures o1 == o2 && u1 == u2
    {
      assert s[o1][u1] == r[o1][u1] && s[o2][u2] == r[o2][u2];
    }
  }
}
