# Escrow API: policy gate and one-time-code store, in Dafny

This project models the two parts of the escrow API service that carry
behaviour.

- **The category policy gate** (`PolicyService`). It decides whether a job
  category is admissible for a user. With Shariah mode off, every category
  passes. With it on, the category is trimmed and lower-cased, and it is
  rejected if it equals one of the eight entries of the fixed Shariah list:
  riba, interest, gambling, adult, alcohol, pork, weapons, drugs.
  `shariahEnabledFor` turns a user's optional flag into the mode.
- **The one-time-code store** (`AuthService`). It backs e-mail sign-in.
  `start` files a six-digit code under the trimmed, lower-cased address, with
  an expiry ten minutes ahead, and overwrites any earlier code. `verify`
  succeeds when an entry exists for the address, has not expired and holds
  the given code. It then deletes the entry and returns the token. Any
  failure throws `Unauthorized` before anything is changed.

Files:

- `wrappers.dfy` (`Wrappers`): `Option` and `Result`.
- `text.dfy` (`Text`): JavaScript's `trim` and `toLowerCase`, and the
  normal form both services use as a key.
- `shariah.dfy` (`Shariah`): the prohibited list, as a `const`, which keeps it
  read-only.
- `policy.dfy` (`Policy`): the gate, as pure functions and lemmas.
- `auth.dfy` (`Auth`): the store.
  - `AuthService` is a class with a `map<string, Entry>` field that `Start`
    and `Verify` update in place.
  - `Started`, `Accepts` and `Consumed` state, as functions of the map, what
    each call does.
  - The lemmas about those functions state the store's properties.

The clock (`Date.now()`) and the random code (`Math.random()`) are
parameters of `Start` and `Verify`. The code is a number `n` that `Start`
requires to lie in [100000, 999999], the range that
`Math.floor(100000 + Math.random() * 900000)` can produce. `Start` stores it
as its decimal string.

The escrow endpoints return constants, and the typed-data file (`eip712.ts`)
holds only field-name/type declarations. The model therefore contains no
escrow state machine, no attestation encoder and no signature verifier.

## Model

| member | source | states |
|---|---|---|
| `Text.Lower` | services/api/src/modules/policy/policy.service.ts:22 | `toLowerCase` keeps the length and lower-cases position by position. |
| `Text.Trim` | services/api/src/modules/policy/policy.service.ts:22 | `trim` returns a slice of the input with no trimmable character at either end. Everything cut off on both sides is trimmable. |
| `Text.Normalize` | services/api/src/modules/policy/policy.service.ts:22 | `trim().toLowerCase()` yields a normal form: no trimmable character at either end, no capital letter, and no longer than the input. |
| `Text.NormalizeFixesNormal` | services/api/src/modules/policy/policy.service.ts:22 | A string already in normal form is returned unchanged. |
| `Text.NormalizeIdempotent` | services/api/src/modules/auth/auth.service.ts:15 | Normalising twice gives the same key as normalising once. |
| `Text.TrimLowerCommute` | services/api/src/modules/policy/policy.service.ts:22 | Trimming then lower-casing equals lower-casing then trimming. |
| `Text.LowerIdempotent` | services/api/src/modules/policy/policy.service.ts:22 | Lower-casing twice equals lower-casing once. |
| `Shariah.EntriesDistinct` | packages/compliance/src/policies/shariah.ts:6-15 | The list has exactly eight entries, pairwise distinct. |
| `Shariah.EntriesNormal` | packages/compliance/src/policies/shariah.ts:7-14 | Every entry is trimmed and lower-case, so normalisation maps it to itself. |
| `Policy.ProhibitedSet` | services/api/src/modules/policy/policy.service.ts:6-8 | The `Set` built from the list has the same members as the list and the same size, eight. |
| `Policy.DistinctToSet` | services/api/src/modules/policy/policy.service.ts:6-8 | A list with no repeated entry becomes a set with as many members as the list has entries. |
| `Policy.IsProhibitedCategory` | services/api/src/modules/policy/policy.service.ts:10-12 | True exactly when the string equals one of the configured entries. |
| `Policy.ProhibitedExactly` | packages/compliance/src/policies/shariah.ts:6-15 | The prohibited strings are exactly riba, interest, gambling, adult, alcohol, pork, weapons and drugs. |
| `Policy.ShariahEnabledFor` | services/api/src/modules/policy/policy.service.ts:16-18 | True only for a present user whose flag is present and true. An absent user or an absent flag gives false. |
| `Policy.IsCategoryAllowed` | services/api/src/modules/policy/policy.service.ts:20-25 | Mode off: always true. Mode on: false exactly when the normalised category equals an entry of the list. |
| `Policy.AllowedIgnoresCaseAndPadding` | services/api/src/modules/policy/policy.service.ts:22 | The verdict on a category equals the verdict on its normal form, in both modes. |
| `Policy.AllowedAfterLowerOrTrim` | services/api/src/modules/policy/policy.service.ts:22-24 | Lower-casing or trimming the category before the gate does not change its verdict, in either mode. |
| `Policy.AllowedMonotoneInMode` | services/api/src/modules/policy/policy.service.ts:21-24 | A category allowed with the mode on is allowed with the mode off. |
| `Policy.EveryEntryRejected` | services/api/src/modules/policy/policy.service.ts:22-24 | Every configured entry, as written, is rejected with the mode on. |
| `Policy.RejectedExactlyEntries` | services/api/src/modules/policy/policy.service.ts:22-24 | Mode on: rejected if and only if the normal form is one of the eight strings. |
| `Policy.InterestExamples` | services/api/src/modules/policy/policy.service.ts:20-25 | "Interest" and "INTEREST " are rejected with the mode on. "interest" is allowed with the mode off. |
| `Policy.SubstringsPass` | services/api/src/modules/policy/policy.service.ts:10-12 | Matching is by equality, not substring: "interest rates" and "design" are allowed with the mode on. |
| `Auth.DecimalString` | services/api/src/modules/auth/auth.service.ts:16 | `toString` of a non-negative integer below 10^21 (every code `start` draws) is all digits, reads back as the number, has no leading zero, and has as many digits as the number. |
| `Auth.CodeIsSixDigits` | services/api/src/modules/auth/auth.service.ts:16 | Every code `start` can generate is six decimal digits with no leading zero. |
| `Auth.CodesDistinct` | services/api/src/modules/auth/auth.service.ts:16 | Two numbers give the same code exactly when they are equal. |
| `Auth.Started` | services/api/src/modules/auth/auth.service.ts:14-18 | After `start`, the normalised address maps to the new code, expiring 600000 ms after `now`. The key set grows by that address only. Every other entry is unchanged. |
| `Auth.Consumed` | services/api/src/modules/auth/auth.service.ts:27 | After a successful `verify`, the normalised address has no entry. Every other entry is unchanged. |
| `Auth.AuthService.constructor` | services/api/src/modules/auth/auth.service.ts:12 | The store starts empty and satisfies its invariant: keys are normalised, codes are six digits. |
| `Auth.AuthService.Start` | services/api/src/modules/auth/auth.service.ts:14-19 | Always answers ok. The map becomes `Started(old map, ...)`. The invariant is preserved. |
| `Auth.MalformedCodeRejected` | services/api/src/modules/auth/auth.service.ts:16-24 | In a store whose codes are all six digits, a code that is not six digits never verifies. |
| `Auth.AuthService.Verify` | services/api/src/modules/auth/auth.service.ts:21-29 | Succeeds exactly when `Accepts` holds: an entry exists, `now <= exp`, and the codes are equal. A code that is not six digits always fails. On success it returns the token and the map becomes `Consumed(old map, ...)`. On failure it raises `Unauthorized("Invalid or expired code")` and the map is unchanged, so expired entries are not evicted. The invariant is preserved. |
| `Auth.StartedAccepts` | services/api/src/modules/auth/auth.service.ts:14-26 | Right after `start`, `verify` under any spelling with the same normal form succeeds exactly when the code is the new one and the time is at most `now + 600000`. |
| `Auth.LatestCodeOnly` | services/api/src/modules/auth/auth.service.ts:17 | After a second `start` for the same address, the first code verifies only if the two numbers are equal, and only within the second expiry. |
| `Auth.SingleUse` | services/api/src/modules/auth/auth.service.ts:27 | Once the entry is consumed, no code verifies for that address under any spelling. |
| `Auth.ExpiryBoundary` | services/api/src/modules/auth/auth.service.ts:24 | A stored code still verifies at exactly `exp` and no longer at `exp + 1`. |
| `Auth.MixedCaseAddress` | services/api/src/modules/auth/auth.service.ts:15-24 | A code started for "Foo@X.com " verifies for "foo@x.com". |
| `Auth.SignInTwice` | services/api/src/modules/auth/auth.service.ts:14-29 | Through the class itself: `start`, then the first `verify` returns the token and the second throws `Unauthorized`. |

## Left out

- Escrow endpoints (`escrow.controller.ts`), the wallet endpoint, the auth controller and the NestJS module wiring are left out. They return constants, forward to the services, or configure dependency injection.
- The typed-data declarations (`eip712.ts`) are left out. They hold field names and types only. EIP-712 encoding, Keccak-256 hashing and signer recovery happen in an external library.
- `Auth.DecimalString`: it matches JavaScript's `toString` only below 10^21, where JavaScript switches to exponent form. The store renders only numbers in [100000, 999999].
- `Date.now()` and `Math.random()` are not modelled. The time is the parameter `now`, and the random draw is the number `n`. `Start` requires `n` to be in [100000, 999999], the range of the source's floating-point expression.
- `Text.Lower`: only ASCII `A`-`Z` are lower-cased. JavaScript `toLowerCase` also maps non-ASCII letters, which is not modelled. Two consequences follow. First, the gate can differ from the source: JavaScript lower-cases U+212A KELVIN SIGN to ASCII `k`, so with Shariah mode on the source rejects "POR\u212A" as "pork", while the model allows it. Second, the length is not always kept: JavaScript lower-cases "İ" (U+0130) to two code units, while `Text.Lower` keeps the length. `trim` follows the ECMAScript WhiteSpace and LineTerminator set exactly, with "Zs" as of Unicode 15.
- `Policy.IsCategoryAllowed`: the gate inherits the ASCII-only lower-casing of `Text.Lower`. A category that reaches a prohibited entry only through non-ASCII case mapping, such as "POR\u212A", is allowed by the model and rejected by the source.
- `Policy.ShariahEnabledFor`: `shariah_mode` is modelled as an optional boolean, as its declared type says. A non-boolean truthy value arriving at run time is not modelled.
- The token is the constant string `"JWT_PLACEHOLDER"`, as in the source. No credential scheme is modelled.
- Time values are unbounded integers. The millisecond clock is a JavaScript number, and its floating-point limits are not modelled.
- The store is single-threaded, like the source. Concurrent calls are not modelled.
