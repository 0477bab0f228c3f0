/**
 * The short-link record (model/ShortLink.java).
 *
 * `ShortLink` is the mutable object the service changes in place; `Link` is
 * its value, used by the specifications of the store.
 */
module ShortLinks {
  import opened Wrappers

  /** The value of a short link at one moment. Timestamps are integers. */
  datatype Link = Link(
    shortCode: string,
    originalUrl: string,
    userNickname: string,
    clickCount: nat,
    clickLimit: Option<int>,   // None: no limit (Java null)
    createdAt: int,
    expiresAt: int,
    isActive: bool)
  {
    /** Expired strictly after `expiresAt`: at `expiresAt` itself the link is still valid. */
    predicate IsExpired(now: int) {
      now > expiresAt
    }

    /** A limit is present and has been reached. */
    predicate IsClickLimitExceeded() {
      clickLimit.Some? && clickCount >= clickLimit.value
    }

    predicate CanBeAccessed(now: int) {
      isActive && !IsExpired(now) && !IsClickLimitExceeded()
    }
  }

  /** The link `ShortLink`'s constructor builds: no clicks yet, active, created `now`. */
  function NewLink(shortCode: string, originalUrl: string, userNickname: string,
                   clickLimit: Option<int>, expiresAt: int, now: int): (l: Link)
    ensures l.clickCount == 0 && l.isActive && l.createdAt == now
    ensures l.shortCode == shortCode && l.originalUrl == originalUrl && l.userNickname == userNickname
    ensures l.clickLimit == clickLimit && l.expiresAt == expiresAt
    ensures !l.IsExpired(now) <==> now <= expiresAt
  {
    Link(shortCode, originalUrl, userNickname, 0, clickLimit, now, expiresAt, true)
  }

  class ShortLink {
    const shortCode: string
    const originalUrl: string
    const userNickname: string
    var clickCount: nat
    const clickLimit: Option<int>
    const createdAt: int
    const expiresAt: int
    var isActive: bool

    /** The current value of this object. */
    function View(): Link
      reads this
    {
      Link(shortCode, originalUrl, userNickname, clickCount, clickLimit, createdAt, expiresAt, isActive)
    }

    /** `createdAt` is the clock reading `now` taken at construction. */
    constructor (shortCode: string, originalUrl: string, userNickname: string,
                 clickLimit: Option<int>, expiresAt: int, now: int)
      ensures View() == NewLink(shortCode, originalUrl, userNickname, clickLimit, expiresAt, now)
    {
      this.shortCode := shortCode;
      this.originalUrl := originalUrl;
      this.userNickname := userNickname;
      this.clickCount := 0;
      this.clickLimit := clickLimit;
      this.createdAt := now;
      this.expiresAt := expiresAt;
      this.isActive := true;
    }

    /** A link read back from the data file: every field as it was saved. */
    constructor Restore(record: Link)
      ensures View() == record
    {
      this.shortCode := record.shortCode;
      this.originalUrl := record.originalUrl;
      this.userNickname := record.userNickname;
      this.clickCount := record.clickCount;
      this.clickLimit := record.clickLimit;
      this.createdAt := record.createdAt;
      this.expiresAt := record.expiresAt;
      this.isActive := record.isActive;
    }

    method IncrementClickCount()
      modifies this
      ensures View() == old(View()).(clickCount := old(clickCount) + 1)
    {
      clickCount := clickCount + 1;
    }

    method SetActive(active: bool)
      modifies this
      ensures View() == old(View()).(isActive := active)
    {
      isActive := active;
    }

    predicate IsExpired(now: int)
      reads this
    {
      View().IsExpired(now)
    }

    predicate IsClickLimitExceeded()
      reads this
    {
      View().IsClickLimitExceeded()
    }

    predicate CanBeAccessed(now: int)
      reads this
    {
      View().CanBeAccessed(now)
    }
  }

  /** Expiry is irreversible: once expired, a link stays expired at every later time. */
  lemma ExpiryIsPermanent(l: Link, now: int, later: int)
    requires l.IsExpired(now) && now <= later
    ensures l.IsExpired(later)
    ensures l.expiresAt < now
  {
  }

  /** A link is valid up to and including `expiresAt`, and expired one unit after it. */
  lemma ExpiryBoundary(l: Link)
    ensures !l.IsExpired(l.expiresAt) && l.IsExpired(l.expiresAt + 1)
  {
  }

  /** A missing limit is never exceeded; a present one is exceeded from the count that reaches it on. */
  lemma LimitExceededMeaning(l: Link)
    ensures l.clickLimit.None? ==> !l.IsClickLimitExceeded()
    ensures l.clickLimit.Some? ==> (l.IsClickLimitExceeded() <==> l.clickLimit.value <= l.clickCount)
    ensures l.IsClickLimitExceeded() ==> l.(clickCount := l.clickCount + 1).IsClickLimitExceeded()
  {
  }
}
