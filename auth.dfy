/** The one-time-code store behind e-mail sign-in: `start` files a fresh
    six-digit code under the normalised e-mail address with a ten-minute
    expiry, and `verify` accepts that code once, before it expires. The clock
    and the random code are inputs here. */
module Auth {
  import opened Wrappers
  import Text

  /** How long a code stays valid: ten minutes, in milliseconds. */
  const Ttl: int := 10 * 60 * 1000

  /** The token a successful verification hands back. */
  const Token: string := "JWT_PLACEHOLDER"

  /** The message of the exception every failed verification throws. */
  const InvalidCode: string := "Invalid or expired code"

  /** What the store keeps per address: the code and its expiry instant. */
  datatype Entry = Entry(code: string, exp: int)

  datatype AuthError = Unauthorized(message: string)

  // Codes: the decimal rendering of a number in [100000, 999999].

  /** The numbers `Math.floor(100000 + Math.random() * 900000)` can yield. */
  predicate IsCodeNumber(n: int) {
    100000 <= n <= 999999
  }

  predicate IsDigit(c: char) {
    '0' <= c <= '9'
  }

  predicate AllDigits(s: string) {
    forall i :: 0 <= i < |s| ==> IsDigit(s[i])
  }

  /** A code as the store holds it: six decimal digits, no leading zero. */
  predicate IsCode(s: string) {
    |s| == 6 && AllDigits(s) && s[0] != '0'
  }

  function Pow10(k: nat): (p: nat)
    ensures p >= 1
  {
    if k == 0 then 1 else 10 * Pow10(k - 1)
  }

  /** The number a string of decimal digits denotes. */
  function DecimalValue(s: string): nat
    requires AllDigits(s)
  {
    if s == [] then 0 else DecimalValue(s[..|s| - 1]) * 10 + (s[|s| - 1] as int - '0' as int)
  }

  /** `n.toString()` for a non-negative integer below 10^21, which covers
      every code `start` draws: its decimal digits, as many as the number has
      and no leading zero. (From 10^21 on JavaScript switches to exponent
      form; the store never renders such a number.) */
  function DecimalString(n: nat): (s: string)
    ensures |s| >= 1 && AllDigits(s)
    ensures DecimalValue(s) == n
    ensures n > 0 ==> s[0] != '0' && Pow10(|s| - 1) <= n < Pow10(|s|)
  {
    var last := [('0' as int + n % 10) as char];
    if n < 10 then last
    else
      var s := DecimalString(n / 10) + last;
      assert s[..|s| - 1] == DecimalString(n / 10);
      s
  }

  /** Every code `start` can generate is six decimal digits. */
  lemma {:induction false} CodeIsSixDigits(n: int)
    requires IsCodeNumber(n)
    ensures IsCode(DecimalString(n))
  {
    var s := DecimalString(n);
    if |s| > 6 {
      Pow10Monotone(6, |s| - 1);
    } else if |s| < 6 {
      Pow10Monotone(|s|, 5);
    }
  }

  lemma {:induction false} Pow10Monotone(a: nat, b: nat)
    requires a <= b
    ensures Pow10(a) <= Pow10(b)
  {
    if a < b {
      Pow10Monotone(a, b - 1);
    }
  }

  /** Different numbers give different codes. */
  lemma CodesDistinct(n: nat, m: nat)
    ensures DecimalString(n) == DecimalString(m) <==> n == m
  {
  }

  // The store's transitions, as functions of the map.

  /** The map after `start`: the normalised address now maps to the new code,
      expiring `Ttl` after `now`, whatever it held before; all other
      addresses keep their entries. */
  function Started(codes: map<string, Entry>, email: string, n: int, now: int): (m: map<string, Entry>)
    requires IsCodeNumber(n)
    ensures m.Keys == codes.Keys + {Text.Normalize(email)}
    ensures m[Text.Normalize(email)] == Entry(DecimalString(n), now + Ttl)
    ensures forall k :: k in codes && k != Text.Normalize(email) ==> m[k] == codes[k]
  {
    codes[Text.Normalize(email) := Entry(DecimalString(n), now + Ttl)]
  }

  /** Whether `verify` succeeds: there is an entry for the normalised address,
      it has not expired at `now` and its code is the one given. */
  predicate Accepts(codes: map<string, Entry>, email: string, code: string, now: int) {
    var key := Text.Normalize(email);
    !(key !in codes || codes[key].exp < now || codes[key].code != code)
  }

  /** The map after a successful `verify`: the entry for the normalised
      address is gone, every other entry is as it was. */
  function Consumed(codes: map<string, Entry>, email: string): (m: map<string, Entry>)
    ensures m.Keys == codes.Keys - {Text.Normalize(email)}
    ensures forall k :: k in m ==> m[k] == codes[k]
  {
    codes - {Text.Normalize(email)}
  }

  /** What every reachable store satisfies: each key is a normalised
      address and each code six digits. */
  predicate WellFormed(codes: map<string, Entry>) {
    forall k :: k in codes ==> Text.IsNormal(k) && IsCode(codes[k].code)
  }

  /** In a well-formed store, a code that is not six digits never verifies,
      whatever the address and the time. */
  lemma {:induction false} MalformedCodeRejected(codes: map<string, Entry>, email: string, code: string, now: int)
    requires WellFormed(codes)
    requires !IsCode(code)
    ensures !Accepts(codes, email, code, now)
  {
    var key := Text.Normalize(email);
    if key in codes {
      assert IsCode(codes[key].code);
    }
  }

  class AuthService {
    var codes: map<string, Entry>

    ghost predicate Valid()
      reads this
    {
      WellFormed(codes)
    }

    constructor ()
      ensures Valid() && codes == map[]
    {
      codes := map[];
    }

    /** `start`: generates the code (here the number `n`), files it under the
        normalised address and always answers ok. */
    method Start(email: string, n: int, now: int) returns (ok: bool)
      requires Valid()
      requires IsCodeNumber(n)
      modifies this
      ensures Valid()
      ensures ok
      ensures codes == Started(old(codes), email, n, now)
    {
      var key := Text.Normalize(email);
      var code := DecimalString(n);
      CodeIsSixDigits(n);
      codes := codes[key := Entry(code, now + Ttl)];
      ok := true;
    }

    /** `verify`: checks the entry before touching anything, fails with
        Unauthorized leaving the map as it was, and on success deletes the
        entry and hands back the token. */
    method Verify(email: string, code: string, now: int) returns (r: Result<string, AuthError>)
      requires Valid()
      modifies this
      ensures Valid()
      ensures r.Success? <==> Accepts(old(codes), email, code, now)
      ensures !IsCode(code) ==> r.Failure?
      ensures r.Success? ==> r.value == Token && codes == Consumed(old(codes), email)
      ensures r.Failure? ==> r.error == Unauthorized(InvalidCode) && codes == old(codes)
    {
      var key := Text.Normalize(email);
      if !IsCode(code) {
        MalformedCodeRejected(codes, email, code, now);
      }
      if key !in codes || codes[key].exp < now || codes[key].code != code {
        return Failure(Unauthorized(InvalidCode));
      }
      codes := codes - {key};
      return Success(Token);
    }
  }

  // Properties of the transitions.

  /** Right after `start`, the code is accepted for any spelling of the
      address with the same normal form, up to and including the expiry
      instant and not after it, and no other code is. */
  lemma {:induction false} StartedAccepts(codes: map<string, Entry>, email: string, other: string, n: int, now: int, code: string, later: int)
    requires IsCodeNumber(n)
    requires Text.Normalize(other) == Text.Normalize(email)
    ensures Accepts(Started(codes, email, n, now), other, code, later) <==>
      later <= now + Ttl && code == DecimalString(n)
  {
  }

  /** A second `start` for the same address replaces the first code: the
      earlier code is accepted afterwards only if both numbers coincide. */
  lemma {:induction false} LatestCodeOnly(codes: map<string, Entry>, email: string, n1: int, t1: int, n2: int, t2: int, later: int)
    requires IsCodeNumber(n1) && IsCodeNumber(n2)
    ensures Accepts(Started(Started(codes, email, n1, t1), email, n2, t2), email, DecimalString(n1), later)
      ==> n1 == n2 && later <= t2 + Ttl
  {
    CodesDistinct(n1, n2);
  }

  /** A code is good for one sign-in: once the entry is consumed, no code is
      accepted for that address (under any spelling) until the next `start`. */
  lemma {:induction false} SingleUse(codes: map<string, Entry>, email: string, other: string, code: string, later: int)
    requires Text.Normalize(other) == Text.Normalize(email)
    ensures !Accepts(Consumed(codes, email), other, code, later)
  {
  }

  /** An entry is still valid at the instant it expires and no longer one
      millisecond later. */
  lemma {:induction false} ExpiryBoundary(codes: map<string, Entry>, email: string)
    requires Text.Normalize(email) in codes
    ensures Accepts(codes, email, codes[Text.Normalize(email)].code, codes[Text.Normalize(email)].exp)
    ensures !Accepts(codes, email, codes[Text.Normalize(email)].code, codes[Text.Normalize(email)].exp + 1)
  {
  }

  /** `start` and `verify` normalise alike: a code requested for
      "Foo@X.com " is accepted for "foo@x.com". */
  lemma {:induction false} MixedCaseAddress(codes: map<string, Entry>, n: int, now: int)
    requires IsCodeNumber(n)
    ensures Accepts(Started(codes, "Foo@X.com ", n, now), "foo@x.com", DecimalString(n), now)
  {
    PaddedAddressNormal();
    PlainAddressNormal();
    StartedAccepts(codes, "Foo@X.com ", "foo@x.com", n, now, DecimalString(n), now);
  }

  lemma PaddedAddressNormal()
    ensures Text.Normalize("Foo@X.com ") == "foo@x.com"
  {
    PaddedAddressTrimmed();
    MixedAddressLowered();
  }

  lemma PaddedAddressTrimmed()
    ensures Text.Trim("Foo@X.com ") == "Foo@X.com"
  {
    assert "Foo@X.com " == "Foo@X.com" + [' '];
    Text.TrimOneTrailing("Foo@X.com", ' ');
  }

  lemma MixedAddressLowered()
    ensures Text.Lower("Foo@X.com") == "foo@x.com"
  {
    Text.LowerPointwise("Foo@X.com", "foo@x.com");
  }

  lemma PlainAddressNormal()
    ensures Text.Normalize("foo@x.com") == "foo@x.com"
  {
    PlainAddressTrimmed();
    PlainAddressLowered();
  }

  lemma PlainAddressTrimmed()
    ensures Text.Trim("foo@x.com") == "foo@x.com"
  {
    Text.TrimFixesTrimmed("foo@x.com");
  }

  lemma PlainAddressLowered()
    ensures Text.Lower("foo@x.com") == "foo@x.com"
  {
    Text.LowerPointwise("foo@x.com", "foo@x.com");
  }

  /** Sign-in through the service itself: the code just started is accepted
      once, for another spelling of the address, and refused the second time. */
  method SignInTwice(n: int, now: int) returns (first: Result<string, AuthError>, second: Result<string, AuthError>)
    requires IsCodeNumber(n)
    ensures first == Success(Token)
    ensures second == Failure(Unauthorized(InvalidCode))
  {
    var service := new AuthService();
    var ok := service.Start("Foo@X.com ", n, now);
    MixedCaseAddress(map[], n, now);
    first := service.Verify("foo@x.com", DecimalString(n), now);
    SingleUse(map[], "Foo@X.com ", "foo@x.com", DecimalString(n), now);
    second := service.Verify("foo@x.com", DecimalString(n), now);
  }
}
