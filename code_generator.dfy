/**
 * Short-code generation (generateShortCode, generateRandomCode and
 * generateUniqueCode in service/UrlShortenerService.java).
 *
 * The outside world enters through oracles: `NextInt` is SecureRandom,
 * `CurrentTimeMillis` is the system clock, and `hashCode` (String.hashCode)
 * is a function the caller supplies.
 */
module CodeGenerator {
  import opened Wrappers

  /** The bound the source passes to `random.nextInt` when perturbing a seed. */
  const SeedPerturbation: nat := 1000000

  /** The number of content-derived attempts before the random fallback. */
  const MaxAttempts: nat := 10

  /** SecureRandom.nextInt(bound): any value below the bound. */
  method NextInt(bound: nat) returns (r: nat)
    requires bound > 0
    ensures r < bound
  {
    r :| r < bound;
  }

  /** System.currentTimeMillis(): any reading of the clock. */
  method CurrentTimeMillis() returns (millis: nat)
  {
    millis :| true;
  }

  function Abs(x: int): nat {
    if x < 0 then -x else x
  }

  function Pow(base: nat, exponent: nat): (p: nat)
    ensures base > 0 ==> p > 0
  {
    if exponent == 0 then 1 else base * Pow(base, exponent - 1)
  }

  /** The decimal text of a number, as Java's string concatenation writes it. */
  function Decimal(n: nat): (s: string)
    ensures |s| > 0 && forall i :: 0 <= i < |s| ==> '0' <= s[i] <= '9'
  {
    var digit := ('0' as int + n % 10) as char;
    if n < 10 then [digit] else Decimal(n / 10) + [digit]
  }

  predicate OverAlphabet(code: string, alphabet: string) {
    forall i :: 0 <= i < |code| ==> code[i] in alphabet
  }

  /**
   * Base-|alphabet| digit extraction, least significant digit first: the
   * character for `seed % |alphabet|`, then the code of `seed / |alphabet|`.
   */
  function Digits(alphabet: string, seed: nat, length: nat): (code: string)
    requires |alphabet| > 0
    ensures |code| == length && OverAlphabet(code, alphabet)
    decreases length
  {
    if length == 0 then []
    else [alphabet[seed % |alphabet|]] + Digits(alphabet, seed / |alphabet|, length - 1)
  }

  /** The digit loop of generateShortCode: `length` steps of `seed % n`, `seed / n`. */
  method EncodeSeed(alphabet: string, length: nat, seed: nat) returns (code: string)
    requires |alphabet| > 0
    ensures code == Digits(alphabet, seed, length)
  {
    var builder := "";
    var rest: nat := seed;
    for i := 0 to length
      invariant builder + Digits(alphabet, rest, length - i) == Digits(alphabet, seed, length)
    {
      builder := builder + [alphabet[rest % |alphabet|]];
      rest := rest / |alphabet|;
    }
    code := builder;
  }

  /**
   * `code` is what generateShortCode can return for (nickname, url): the
   * digits of |hashCode(nickname + url)| plus a perturbation below 1000000.
   */
  ghost predicate DerivedFrom(code: string, alphabet: string, codeLength: nat, hashCode: string -> int,
                              userNickname: string, originalUrl: string)
    requires |alphabet| > 0
  {
    exists seed: nat :: Abs(hashCode(userNickname + originalUrl)) <= seed
                        && seed < Abs(hashCode(userNickname + originalUrl)) + SeedPerturbation
                        && code == Digits(alphabet, seed, codeLength)
  }

  /**
   * `code` is what one attempt of generateUniqueCode can yield: derived from
   * the URL itself, or from the URL with a clock reading appended.
   */
  ghost predicate AttemptCode(code: string, alphabet: string, codeLength: nat, hashCode: string -> int,
                              userNickname: string, originalUrl: string)
    requires |alphabet| > 0
  {
    DerivedFrom(code, alphabet, codeLength, hashCode, userNickname, originalUrl)
    || exists millis: nat :: DerivedFrom(code, alphabet, codeLength, hashCode, userNickname, originalUrl + Decimal(millis))
  }

  /**
   * generateShortCode: the seed is |hashCode(nickname + url)| plus a random
   * perturbation below 1000000; the code is that seed's digits.
   */
  method GenerateShortCode(alphabet: string, codeLength: nat, hashCode: string -> int,
                           userNickname: string, originalUrl: string) returns (code: string)
    requires |alphabet| > 0
    ensures |code| == codeLength && OverAlphabet(code, alphabet)
    ensures DerivedFrom(code, alphabet, codeLength, hashCode, userNickname, originalUrl)
  {
    var hash := hashCode(userNickname + originalUrl);
    var perturbation := NextInt(SeedPerturbation);
    var seed := Abs(hash) + perturbation;
    code := EncodeSeed(alphabet, codeLength, seed);
  }

  /** generateRandomCode: `codeLength` independent random characters of the alphabet. */
  method GenerateRandomCode(alphabet: string, codeLength: nat) returns (code: string)
    requires |alphabet| > 0
    ensures |code| == codeLength && OverAlphabet(code, alphabet)
  {
    code := "";
    for i := 0 to codeLength
      invariant |code| == i && OverAlphabet(code, alphabet)
    {
      var k := NextInt(|alphabet|);
      code := code + [alphabet[k]];
    }
  }

  /**
   * generateUniqueCode as written: at most ten content-derived attempts (each
   * retried once with the clock reading appended to the URL), then a random
   * fallback of length codeLength + 2 that is NOT checked against `existing`.
   * `tries` counts the passes of the retry loop and `last` is the code its
   * final pass produced; the fallback is taken exactly when `last` collides.
   */
  method GenerateUniqueCode(alphabet: string, codeLength: nat, hashCode: string -> int,
                            userNickname: string, originalUrl: string, existing: set<string>)
    returns (code: string, ghost tries: nat, ghost last: string)
    requires |alphabet| > 0 && codeLength >= 2
    ensures 1 <= tries <= MaxAttempts
    ensures OverAlphabet(code, alphabet)
    ensures |code| == codeLength || |code| == codeLength + 2
    ensures |code| == codeLength ==> code !in existing
    ensures |code| == codeLength ==> AttemptCode(code, alphabet, codeLength, hashCode, userNickname, originalUrl)
    ensures tries < MaxAttempts ==> |code| == codeLength
    ensures AttemptCode(last, alphabet, codeLength, hashCode, userNickname, originalUrl)
    ensures last !in existing ==> code == last
    ensures last in existing ==> tries == MaxAttempts && |code| == codeLength + 2
  {
    code := "";
    var attempts := 0;
    while true
      invariant attempts < MaxAttempts
      decreases MaxAttempts - attempts
    {
      code := GenerateShortCode(alphabet, codeLength, hashCode, userNickname, originalUrl);
      attempts := attempts + 1;
      if code in existing && attempts < MaxAttempts {
        var millis := CurrentTimeMillis();
        code := GenerateShortCode(alphabet, codeLength, hashCode, userNickname, originalUrl + Decimal(millis));
      }
      if !(code in existing && attempts < MaxAttempts) {
        break;
      }
    }
    tries := attempts;
    last := code;
    if code in existing {
      var first := GenerateRandomCode(alphabet, codeLength);
      var second := GenerateRandomCode(alphabet, codeLength);
      code := first + second[..2];
    }
  }

  /** Every code of `length` characters over the alphabet is already taken. */
  ghost predicate Exhausted(existing: set<string>, alphabet: string, length: nat) {
    forall c :: |c| == length && OverAlphabet(c, alphabet) ==> c in existing
  }

  /**
   * generateUniqueCode corrected: when the random fallback collides, the
   * codes of length codeLength + 2 are tried in seed order, and None
   * (capacity exceeded) is returned only when all of them are taken.
   * `collided` is the content-derived code whose collision led there.
   */
  method GenerateFreshCode(alphabet: string, codeLength: nat, hashCode: string -> int,
                           userNickname: string, originalUrl: string, existing: set<string>)
    returns (r: Option<string>, ghost collided: string)
    requires |alphabet| > 0 && codeLength >= 2
    ensures r.Some? ==> r.value !in existing && OverAlphabet(r.value, alphabet)
    ensures r.Some? ==> |r.value| == codeLength || |r.value| == codeLength + 2
    ensures r.Some? && |r.value| == codeLength ==> AttemptCode(r.value, alphabet, codeLength, hashCode, userNickname, originalUrl)
    ensures r.None? || |r.value| == codeLength + 2 ==>
              collided in existing && AttemptCode(collided, alphabet, codeLength, hashCode, userNickname, originalUrl)
    ensures r.None? ==> Exhausted(existing, alphabet, codeLength + 2)
  {
    ghost var tries, last;
    var code;
    code, tries, last := GenerateUniqueCode(alphabet, codeLength, hashCode, userNickname, originalUrl, existing);
    collided := last;
    if code !in existing {
      return Some(code), collided;
    }
    var length := codeLength + 2;
    var total := Pow(|alphabet|, length);
    var k := 0;
    while k < total
      invariant k <= total
      invariant forall j: nat :: j < k ==> Digits(alphabet, j, length) in existing
    {
      var candidate := EncodeSeed(alphabet, length, k);
      if candidate !in existing {
        return Some(candidate), collided;
      }
      k := k + 1;
    }
    forall c | |c| == codeLength + 2 && OverAlphabet(c, alphabet)
      ensures c in existing
    {
      DigitsCover(alphabet, c);
    }
    return None, collided;
  }

  // ---------------------------------------------------------------------------
  // Arithmetic facts about Euclidean division used below.

  lemma DivModUnique(x: int, d: int, q: int, r: int)
    requires d > 0 && 0 <= r < d && x == d * q + r
    ensures x / d == q && x % d == r
  {
    var q', r' := x / d, x % d;
    assert x == d * q' + r';
    if q' > q {
      assert d * (q' - q) == r - r';
      MulAtLeast(d, q' - q);
    } else if q' < q {
      assert d * (q - q') == r' - r;
      MulAtLeast(d, q - q');
    }
  }

  lemma MulAtLeast(d: int, k: int)
    requires d > 0 && k >= 1
    ensures d * k >= d
  {
    assert d * k == d + d * (k - 1);
  }

  lemma MulMonotone(d: nat, a: nat, b: nat)
    requires a <= b
    ensures d * a <= d * b
  {
    assert d * b == d * a + d * (b - a);
  }

  lemma DivDiv(x: nat, b: nat, c: nat)
    requires b > 0 && c > 0
    ensures x / b / c == x / (b * c)
  {
    var q, r := x / b, x % b;
    var q2, r2 := q / c, q % c;
    assert x == b * q + r;
    assert q == c * q2 + r2;
    assert x == (b * c) * q2 + (b * r2 + r);
    MulMonotone(b, r2, c - 1);
    assert b * (c - 1) == b * c - b;
    DivModUnique(x, b * c, q2, b * r2 + r);
  }

  // ---------------------------------------------------------------------------
  // What digit extraction computes.

  /** Character `i` of a code is digit `i` of the seed written in base |alphabet|. */
  lemma {:induction false} DigitsAt(alphabet: string, seed: nat, length: nat, i: nat)
    requires |alphabet| > 0 && i < length
    ensures Digits(alphabet, seed, length)[i] == alphabet[(seed / Pow(|alphabet|, i)) % |alphabet|]
    decreases i
  {
    var n := |alphabet|;
    if i == 0 {
      assert Pow(n, 0) == 1;
    } else {
      var p, q := Pow(n, i - 1), seed / n;
      calc {
        Digits(alphabet, seed, length)[i];
        Digits(alphabet, q, length - 1)[i - 1];
        { DigitsAt(alphabet, q, length - 1, i - 1); }
        alphabet[(q / p) % n];
        { DivDiv(seed, n, p); }
        alphabet[(seed / (n * p)) % n];
      }
    }
  }

  /** Prepending digit `idx` to a seed below n^k gives a seed below n^(k+1). */
  lemma PrependDigit(alphabet: string, idx: nat, rest: nat, k: nat)
    requires idx < |alphabet| && rest < Pow(|alphabet|, k)
    ensures idx + |alphabet| * rest < Pow(|alphabet|, k + 1)
    ensures Digits(alphabet, idx + |alphabet| * rest, k + 1) == [alphabet[idx]] + Digits(alphabet, rest, k)
  {
    var n := |alphabet|;
    DivModUnique(idx + n * rest, n, rest, idx);
    MulMonotone(n, rest, Pow(n, k) - 1);
    assert n * (Pow(n, k) - 1) == Pow(n, k + 1) - n;
  }

  /** Every code over the alphabet is the digits of some seed below |alphabet|^length. */
  lemma {:induction false} DigitsCover(alphabet: string, c: string)
    requires |alphabet| > 0 && OverAlphabet(c, alphabet)
    ensures exists seed: nat :: seed < Pow(|alphabet|, |c|) && Digits(alphabet, seed, |c|) == c
    decreases |c|
  {
    if c == [] {
      assert Digits(alphabet, 0, 0) == c;
    } else {
      var tail := c[1..];
      assert OverAlphabet(tail, alphabet) by {
        forall i | 0 <= i < |tail| ensures tail[i] in alphabet {
          assert tail[i] == c[i + 1];
        }
      }
      DigitsCover(alphabet, tail);
      var rest: nat :| rest < Pow(|alphabet|, |tail|) && Digits(alphabet, rest, |tail|) == tail;
      assert c[0] in alphabet;
      var idx :| 0 <= idx < |alphabet| && alphabet[idx] == c[0];
      PrependDigit(alphabet, idx, rest, |tail|);
      assert [c[0]] + tail == c;
    }
  }

  // ---------------------------------------------------------------------------
  // The unchecked fallback of generateUniqueCode, exhibited.

  lemma OneLetterCode(code: string, letter: char)
    requires OverAlphabet(code, [letter])
    ensures code == seq(|code|, _ => letter)
  {
  }

  /**
   * With the one-letter alphabet "a", code length 2 and the codes "aa" and
   * "aaaa" already stored, every content-derived attempt collides and the
   * fallback returns "aaaa", a code that is already stored.
   */
  method DuplicateFallbackWitness(hashCode: string -> int) returns (code: string)
    ensures code == "aaaa" && code in {"aa", "aaaa"}
  {
    ghost var tries, last;
    code, tries, last := GenerateUniqueCode("a", 2, hashCode, "alice", "https://example.com", {"aa", "aaaa"});
    OneLetterCode(code, 'a');
    assert "aa" == seq(2, _ => 'a') && "aaaa" == seq(4, _ => 'a');
  }
}
