/**
 * The link service (service/UrlShortenerService.java): every public
 * operation loads the whole data file, changes the loaded copy and saves it
 * back. Here the file is the field `userLinks`, so one call is one
 * transaction.
 */
module Service {
  import opened Wrappers
  import opened ShortLinks
  import opened LinkStore
  import opened CodeGenerator

  /** Why createShortLink refuses a URL (IllegalArgumentException), or, in the corrected generator, gives up. */
  datatype CreateError = EmptyUrl | MalformedUrl | CapacityExceeded

  /** `url.trim().isEmpty()`: trim drops every character up to U+0020 from both ends. */
  predicate IsBlank(url: string) {
    forall i :: 0 <= i < |url| ==> url[i] <= ' '
  }

  predicate HasScheme(url: string) {
    "http://" <= url || "https://" <= url
  }

  /** A URL without an http:// or https:// prefix gets https:// prepended. */
  function NormalizeUrl(url: string): string {
    if HasScheme(url) then url else "https://" + url
  }

  /** Normalising gives a URL with a scheme, leaves such URLs alone, and is idempotent. */
  lemma NormalizeUrlMeaning(url: string)
    ensures HasScheme(NormalizeUrl(url)) && !IsBlank(NormalizeUrl(url))
    ensures HasScheme(url) ==> NormalizeUrl(url) == url
    ensures !HasScheme(url) ==> NormalizeUrl(url) == "https://" + url
    ensures NormalizeUrl(NormalizeUrl(url)) == NormalizeUrl(url)
  {
    var r := NormalizeUrl(url);
    if !HasScheme(url) {
      assert r[..8] == "https://";
    }
    assert r[0] == 'h';
  }

  /** The loop state of removeExpiredLinks: owners still `pending` untouched, the others swept. */
  ghost function PartialSweep(s: Store, pending: set<string>, now: int): Store {
    map owner | owner in s && (owner in pending || Survivors(s[owner], now) != map[]) ::
      if owner in pending then s[owner] else Survivors(s[owner], now)
  }

  /** Some owner outside `pending` has an expired link. */
  ghost predicate ExpiredOutside(s: Store, pending: set<string>, now: int) {
    exists owner, url :: owner in s && owner !in pending && url in s[owner] && s[owner][url].IsExpired(now)
  }

  lemma PartialSweepStep(s: Store, pending: set<string>, owner: string, now: int)
    requires owner in pending && owner in s
    ensures var kept := Survivors(s[owner], now);
      PartialSweep(s, pending - {owner}, now)
        == if kept == map[] then PartialSweep(s, pending, now) - {owner}
           else PartialSweep(s, pending, now)[owner := kept]
    ensures ExpiredOutside(s, pending - {owner}, now)
        <==> ExpiredOutside(s, pending, now) || Survivors(s[owner], now) != s[owner]
  {
    var kept := Survivors(s[owner], now);
    if Survivors(s[owner], now) != s[owner] {
      var url :| url in s[owner] && url !in kept;
      assert s[owner][url].IsExpired(now);
    }
    if ExpiredOutside(s, pending - {owner}, now) && !ExpiredOutside(s, pending, now) {
      var o, u :| o in s && o !in pending - {owner} && u in s[o] && s[o][u].IsExpired(now);
      assert o == owner && u !in kept;
    }
  }

  lemma PartialSweepEnds(s: Store, now: int)
    ensures PartialSweep(s, s.Keys, now) == s
    ensures PartialSweep(s, {}, now) == Prune(s, now)
    ensures !ExpiredOutside(s, s.Keys, now)
    ensures ExpiredOutside(s, {}, now) <==> AnyExpired(s, now)
  {
  }

  /** Removing the collected expired URLs from an owner's map leaves its survivors. */
  lemma KeptAreSurvivors(userMap: map<string, Link>, urlsToRemove: seq<string>, kept: map<string, Link>, now: int)
    requires forall u :: u in urlsToRemove <==> u in userMap && userMap[u].IsExpired(now)
    requires forall u :: u in kept <==> u in userMap && u !in urlsToRemove
    requires forall u :: u in kept ==> kept[u] == userMap[u]
    ensures kept == Survivors(userMap, now)
    ensures |urlsToRemove| > 0 <==> Survivors(userMap, now) != userMap
  {
    assert kept.Keys == Survivors(userMap, now).Keys;
    if |urlsToRemove| > 0 {
      assert urlsToRemove[0] !in Survivors(userMap, now);
    }
  }

  class UrlShortenerService {
    const alphabet: string
    const codeLength: nat
    const baseUrl: string
    const ttl: int
    /** String.hashCode, supplied from outside. */
    const hashCode: string -> int
    /** Whether java.net.URL accepts the text, supplied from outside. */
    const isWellFormedUrl: string -> bool
    /**
     * The content of the data file: owner nickname -> original URL -> link.
     * An operation loads it, works on it and saves it back, so reading and
     * assigning this field stand for loading and saving.
     */
    var userLinks: Store

    predicate Valid() {
      |alphabet| > 0 && codeLength >= 2
    }

    /** The configuration becomes parameters; the store starts empty, as with no data file yet. */
    constructor (alphabet: string, codeLength: nat, baseUrl: string, ttl: int,
                 hashCode: string -> int, isWellFormedUrl: string -> bool)
      requires |alphabet| > 0 && codeLength >= 2
      ensures Valid() && userLinks == map[] && Consistent(userLinks)
      ensures this.alphabet == alphabet && this.codeLength == codeLength && this.baseUrl == baseUrl
      ensures this.ttl == ttl && this.hashCode == hashCode && this.isWellFormedUrl == isWellFormedUrl
    {
      this.alphabet := alphabet;
      this.codeLength := codeLength;
      this.baseUrl := baseUrl;
      this.ttl := ttl;
      this.hashCode := hashCode;
      this.isWellFormedUrl := isWellFormedUrl;
      this.userLinks := map[];
    }

    /** getAllExistingCodes: the short codes of every owner's links. */
    static method GetAllExistingCodes(userLinks: Store) returns (codes: set<string>)
      ensures codes == AllCodes(userLinks)
    {
      codes := {};
      var owners := userLinks.Keys;
      while owners != {}
        invariant owners <= userLinks.Keys
        invariant forall o, u :: o in userLinks && o !in owners && u in userLinks[o] ==> userLinks[o][u].shortCode in codes
        invariant codes <= AllCodes(userLinks)
        decreases owners
      {
        var owner :| owner in owners;
        var userMap := userLinks[owner];
        var urls := userMap.Keys;
        while urls != {}
          invariant urls <= userMap.Keys
          invariant forall o, u :: o in userLinks && o !in owners && u in userLinks[o] ==> userLinks[o][u].shortCode in codes
          invariant forall u :: u in userMap && u !in urls ==> userMap[u].shortCode in codes
          invariant codes <= AllCodes(userLinks)
          decreases urls
        {
          var url :| url in urls;
          codes := codes + {userMap[url].shortCode};
          urls := urls - {url};
        }
        owners := owners - {owner};
      }
    }

    /**
     * findLinkByCode: where a link carrying the code is filed, or None when
     * no owner has one. (The source returns the loaded object; the place it
     * sits is what lets a change to it reach the saved map.)
     */
    static method FindLinkByCode(shortCode: string, userLinks: Store) returns (r: Option<(string, string)>)
      ensures r.Some? ==> LinkAt(userLinks, r.value.0, r.value.1, shortCode)
      ensures r.None? ==> !HasCode(userLinks, shortCode)
    {
      var owners := userLinks.Keys;
      while owners != {}
        invariant owners <= userLinks.Keys
        invariant forall o, u :: o in userLinks && o !in owners && u in userLinks[o] ==> userLinks[o][u].shortCode != shortCode
        decreases owners
      {
        var owner :| owner in owners;
        var userMap := userLinks[owner];
        var urls := userMap.Keys;
        while urls != {}
          invariant urls <= userMap.Keys
          invariant forall u :: u in userMap && u !in urls ==> userMap[u].shortCode != shortCode
          decreases urls
        {
          var url :| url in urls;
          if userMap[url].shortCode == shortCode {
            return Some((owner, url));
          }
          urls := urls - {url};
        }
        owners := owners - {owner};
      }
      return None;
    }

    /**
     * createShortLink: reject a blank URL, prepend https:// when there is no
     * scheme, reject what java.net.URL refuses, return the existing short URL
     * for this (owner, URL), and otherwise store a new link under a fresh code.
     */
    method CreateShortLink(originalUrl: string, userNickname: string, clickLimit: Option<int>, now: int)
      returns (r: Result<string, CreateError>)
      requires Valid()
      modifies this
      ensures r == Failure(EmptyUrl) <==> IsBlank(originalUrl)
      ensures r == Failure(MalformedUrl) <==> !IsBlank(originalUrl) && !isWellFormedUrl(NormalizeUrl(originalUrl))
      ensures r.Failure? ==> userLinks == old(userLinks)
      ensures var url := NormalizeUrl(originalUrl);
        !IsBlank(originalUrl) && isWellFormedUrl(url) && userNickname in old(userLinks) && url in old(userLinks)[userNickname]
        ==> r == Success(baseUrl + old(userLinks)[userNickname][url].shortCode) && userLinks == old(userLinks)
      ensures r == Failure(CapacityExceeded) ==> Exhausted(AllCodes(old(userLinks)), alphabet, codeLength + 2)
      ensures var url := NormalizeUrl(originalUrl);
        r.Success? && !(userNickname in old(userLinks) && url in old(userLinks)[userNickname]) ==>
        && baseUrl <= r.value
        && var code := r.value[|baseUrl|..];
        && code !in AllCodes(old(userLinks))
        && OverAlphabet(code, alphabet) && (|code| == codeLength || |code| == codeLength + 2)
        && (|code| == codeLength ==> AttemptCode(code, alphabet, codeLength, hashCode, userNickname, url))
        && (|code| == codeLength + 2 ==>
              exists c :: c in AllCodes(old(userLinks)) && AttemptCode(c, alphabet, codeLength, hashCode, userNickname, url))
        && userLinks == Put(old(userLinks), userNickname, url, CreatedLink(code, url, userNickname, clickLimit, now, ttl))
      ensures Consistent(old(userLinks)) ==> Consistent(userLinks)
    {
      if IsBlank(originalUrl) {
        return Failure(EmptyUrl);
      }
      var url := NormalizeUrl(originalUrl);
      if !isWellFormedUrl(url) {
        return Failure(MalformedUrl);
      }
      if userNickname in userLinks && url in userLinks[userNickname] {
        return Success(baseUrl + userLinks[userNickname][url].shortCode);
      }
      var existing := GetAllExistingCodes(userLinks);
      var generated;
      ghost var collided: string;
      generated, collided := GenerateFreshCode(alphabet, codeLength, hashCode, userNickname, url, existing);
      if generated.None? {
        return Failure(CapacityExceeded);
      }
      var code := generated.value;
      var link := new ShortLink(code, url, userNickname, clickLimit, now + ttl, now);
      ghost var created := CreatedLink(code, url, userNickname, clickLimit, now, ttl);
      assert link.View() == created;
      if Consistent(userLinks) {
        CreatePreservesConsistent(userLinks, userNickname, url, code, clickLimit, now, ttl);
      }
      userLinks := Put(userLinks, userNickname, url, link.View());
      r := Success(baseUrl + code);
      assert r.value[|baseUrl|..] == code;
      assert userLinks == Put(old(userLinks), userNickname, url, created);
    }

    /**
     * getOriginalUrl: an unknown code gives None; an expired link is
     * deactivated; a link at its limit is refused; otherwise the click is
     * counted, the link deactivated when that click reached the limit, and
     * the original URL returned.
     */
    method GetOriginalUrl(shortCode: string, now: int) returns (url: Option<string>)
      modifies this
      ensures !HasCode(old(userLinks), shortCode) ==> url.None? && userLinks == old(userLinks)
      ensures HasCode(old(userLinks), shortCode) ==>
        exists owner, originalUrl :: ResolvedAt(old(userLinks), userLinks, owner, originalUrl, shortCode, now, url)
      ensures Consistent(old(userLinks)) ==> Consistent(userLinks)
    {
      var found := FindLinkByCode(shortCode, userLinks);
      if found.None? {
        return None;
      }
      var (owner, key) := found.value;
      var link := new ShortLink.Restore(userLinks[owner][key]);
      if link.IsExpired(now) {
        link.SetActive(false);
        url := None;
      } else if link.IsClickLimitExceeded() {
        url := None;
      } else {
        link.IncrementClickCount();
        if link.IsClickLimitExceeded() {
          link.SetActive(false);
        }
        url := Some(link.originalUrl);
      }
      if Consistent(userLinks) {
        ResolvePreservesConsistent(userLinks, owner, key, now);
      }
      assert link.View() == Resolve(userLinks[owner][key], now).link;
      userLinks := Put(userLinks, owner, key, link.View());
      assert ResolvedAt(old(userLinks), userLinks, owner, key, shortCode, now, url);
    }

    /** getUserLinks: the owner's links, none for an unknown owner. */
    method GetUserLinks(userNickname: string) returns (links: seq<Link>)
      ensures userNickname !in userLinks ==> links == []
      ensures userNickname in userLinks ==>
        && |links| == |userLinks[userNickname]|
        && forall l :: l in links <==> l in userLinks[userNickname].Values
    {
      links := [];
      if userNickname !in userLinks {
        return;
      }
      var userMap := userLinks[userNickname];
      var urls := userMap.Keys;
      while urls != {}
        invariant urls <= userMap.Keys
        invariant |links| + |urls| == |userMap.Keys|
        invariant forall l :: l in links ==> l in userMap.Values
        invariant forall u :: u in userMap && u !in urls ==> userMap[u] in links
        decreases urls
      {
        var url :| url in urls;
        links := links + [userMap[url]];
        urls := urls - {url};
      }
    }

    /**
     * deleteLink: only the requester's own map is searched; the first link
     * with the code is removed if it names the requester as owner, and the
     * owner's entry goes when it becomes empty.
     */
    method DeleteLink(shortCode: string, userNickname: string) returns (deleted: bool)
      modifies this
      ensures !deleted ==> userLinks == old(userLinks)
      ensures deleted ==> exists url :: LinkAt(old(userLinks), userNickname, url, shortCode)
                                        && userLinks == RemoveEntry(old(userLinks), userNickname, url)
      ensures KeysMatch(old(userLinks)) ==> (deleted <==> exists url :: LinkAt(old(userLinks), userNickname, url, shortCode))
      ensures Consistent(old(userLinks)) ==> Consistent(userLinks)
    {
      if userNickname !in userLinks {
        return false;
      }
      var userMap := userLinks[userNickname];
      var urlToRemove: Option<string> := None;
      var pending := userMap.Keys;
      while pending != {}
        invariant pending <= userMap.Keys
        invariant urlToRemove.None? ==> forall u :: u in userMap && u !in pending ==> userMap[u].shortCode != shortCode
        decreases pending
      {
        var url :| url in pending;
        if userMap[url].shortCode == shortCode {
          if userMap[url].userNickname != userNickname {
            return false;
          }
          urlToRemove := Some(url);
          break;
        }
        pending := pending - {url};
      }
      if urlToRemove.None? {
        return false;
      }
      var url := urlToRemove.value;
      if Consistent(userLinks) {
        RemovePreservesConsistent(userLinks, userNickname, url);
      }
      var remaining := userMap - {url};
      if remaining == map[] {
        userLinks := userLinks - {userNickname};
      } else {
        userLinks := userLinks[userNickname := remaining];
      }
      assert userLinks == RemoveEntry(old(userLinks), userNickname, url);
      return true;
    }

    /**
     * removeExpiredLinks: every owner's expired links are collected and
     * removed, an owner left with nothing is dropped, and the result is
     * saved only when some link was removed.
     */
    method RemoveExpiredLinks(now: int)
      modifies this
      ensures userLinks == Sweep(old(userLinks), now)
      ensures Consistent(old(userLinks)) ==> Consistent(userLinks)
    {
      var loaded := userLinks;
      var working := loaded;
      var hasChanges := false;
      var owners := loaded.Keys;
      PartialSweepEnds(loaded, now);
      while owners != {}
        invariant owners <= loaded.Keys && userLinks == loaded
        invariant working == PartialSweep(loaded, owners, now)
        invariant hasChanges <==> ExpiredOutside(loaded, owners, now)
        decreases owners
      {
        var owner :| owner in owners;
        var userMap := working[owner];
        assert userMap == loaded[owner];
        var urlsToRemove: seq<string> := [];
        var urls := userMap.Keys;
        while urls != {}
          invariant urls <= userMap.Keys && userLinks == loaded
          invariant forall u :: u in urlsToRemove <==> u in userMap && u !in urls && userMap[u].IsExpired(now)
          decreases urls
        {
          var url :| url in urls;
          if userMap[url].IsExpired(now) {
            urlsToRemove := urlsToRemove + [url];
          }
          urls := urls - {url};
        }
        var kept := userMap;
        for i := 0 to |urlsToRemove|
          invariant userLinks == loaded
          invariant forall u :: u in kept <==> u in userMap && u !in urlsToRemove[..i]
          invariant forall u :: u in kept ==> kept[u] == userMap[u]
          invariant hasChanges <==> ExpiredOutside(loaded, owners, now) || i > 0
        {
          kept := kept - {urlsToRemove[i]};
          hasChanges := true;
        }
        assert urlsToRemove[..|urlsToRemove|] == urlsToRemove;
        KeptAreSurvivors(userMap, urlsToRemove, kept, now);
        PartialSweepStep(loaded, owners, owner, now);
        if kept == map[] {
          working := working - {owner};
        } else {
          working := working[owner := kept];
        }
        owners := owners - {owner};
      }
      assert working == Prune(loaded, now) && (hasChanges <==> AnyExpired(loaded, now));
      if hasChanges {
        userLinks := working;
      }
      if Consistent(loaded) {
        SweepPreservesConsistent(loaded, now);
      }
    }

    /** getLinkStatus: not found, expired, limit exhausted, or active with its clicks and limit. */
    method GetLinkStatus(shortCode: string, now: int) returns (status: LinkStatus)
      ensures status == NotFound <==> !HasCode(userLinks, shortCode)
      ensures status != NotFound ==>
        exists owner, url :: LinkAt(userLinks, owner, url, shortCode) && status == StatusOf(userLinks[owner][url], now)
    {
      var found := FindLinkByCode(shortCode, userLinks);
      if found.None? {
        return NotFound;
      }
      var (owner, url) := found.value;
      var link := new ShortLink.Restore(userLinks[owner][url]);
      if link.IsExpired(now) {
        status := Expired;
      } else if link.IsClickLimitExceeded() {
        status := LimitExhausted;
      } else {
        status := Active(link.clickCount, link.clickLimit);
      }
      assert LinkAt(userLinks, owner, url, shortCode) && status == StatusOf(userLinks[owner][url], now);
    }
  }
}
