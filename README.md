# Secure key-value service: a verified Dafny model

This project models the secure-storage wrapper of a React Native / Expo
health app: `lib/secureStoreService.ts`. The service keeps sensitive items,
such as the auth token, the user id, the health-consent flag and the last
sync time, in the platform's encrypted store. Before any `save`, `get` or
`delete` reaches the store, the caller's key goes through `sanitizeKey`,
which is `key.replace(/[^a-zA-Z0-9.\-_]/g, '_')`.

Files:

- `js_text.dfy` (module `JsText`): JavaScript strings as sequences of UTF-16
  code units (`CodeUnit`, `JsString`). `Utf16` gives the JavaScript string
  that a Dafny string literal denotes. A regular expression without the `u`
  flag matches one code unit at a time. A Dafny `char`, by contrast, is a
  whole Unicode scalar value. So keys are modelled as code-unit sequences,
  not as Dafny `string`. The encoding is proved injective and compatible
  with concatenation, so statements about literals carry over to keys.
- `secure_store_service.dfy` (module `SecureStoreService`) holds these parts:
  - The sanitiser `SanitizeKey` and its properties: it keeps the length; its
    output is whitelisted; each position is preserved or replaced; it is
    idempotent; its fixed points are exactly the whitelisted keys; it is
    compositional; and a lemma states exactly when two keys alias one slot.
  - The `KEYS` constants, as the datatype `StoreKey`.
  - The store as a map from sanitised keys to values, with the three
    functions `Fetched`, `Saved` and `Deleted`.
  - The class `Service`, whose methods `Save`, `Get` and `Delete` update or
    read the map held in its `slots` field.

The platform store is foreign code. Each operation takes the outcome of its
platform call as a parameter, `storeFails`. The source catches and logs every
failure: `get` then yields `null` (modelled as `None`), and `save` and
`delete` return normally. The model assumes that a failed call leaves the
store unchanged. The class invariant `Valid()` says that every slot is a
whitelisted key. It holds because every write goes through the sanitiser.

## Model

| member | source | states |
|---|---|---|
| SecureStoreService.SanitizeUnit | lib/secureStoreService.ts:7 | one code unit's image is always whitelisted; it equals the input exactly when the input is whitelisted, and is '_' otherwise |
| SecureStoreService.SanitizeKey | lib/secureStoreService.ts:7 | the sanitised key has the caller key's length and is whitelisted; a whitelisted unit stays where it was; any other unit becomes '_' |
| SecureStoreService.SanitizeKeyUnique | lib/secureStoreService.ts:7 | the pointwise replacement rule fully determines the sanitised key |
| SecureStoreService.SanitizeKeyIdempotent | lib/secureStoreService.ts:7 | sanitising twice is the same as sanitising once |
| SecureStoreService.SanitizeKeyFixedPoint | lib/secureStoreService.ts:7 | a key is left unchanged if and only if every unit of it is in the whitelist |
| SecureStoreService.SanitizeKeyAppend | lib/secureStoreService.ts:7 | the global replace works on each part of a concatenation independently |
| SecureStoreService.SameSlotIff | lib/secureStoreService.ts:7 | two keys reach the same slot if and only if they have equal length and, at each position, agree or are both "blank" (non-whitelisted or '_') |
| SecureStoreService.SanitizeKeyInjectiveOnKeys | lib/secureStoreService.ts:7 | two distinct whitelisted keys never share a slot |
| SecureStoreService.SanitizeKeyNotInjective | lib/secureStoreService.ts:7 | "a b" and "a/b" are different keys that both become "a_b", so in general the sanitiser is not injective |
| SecureStoreService.AliasInAnyContext | lib/secureStoreService.ts:7 | for every prefix p and suffix q, the different keys p+"a b"+q and p+"a/b"+q reach the same slot |
| SecureStoreService.AstralCharBecomesTwoUnderscores | lib/secureStoreService.ts:7 | a character outside the Basic Multilingual Plane, which is a surrogate pair, becomes two '_' (the regex has no `u` flag) |
| SecureStoreService.KeyText | lib/secureStoreService.ts:47-52 | the four KEYS literals `curable_auth_token`, `curable_user_id`, `curable_health_consent` and `curable_last_sync`: each is non-empty and made only of whitelisted characters |
| SecureStoreService.KeyNamesAreFixedPoints | lib/secureStoreService.ts:47-52 | each of the four KEYS constants is whitelisted and is stored under its own name |
| SecureStoreService.KeyNamesHaveDistinctSlots | lib/secureStoreService.ts:47-52 | two different KEYS constants never address the same slot |
| SecureStoreService.Fetched | lib/secureStoreService.ts:26 | what getItemAsync yields for a caller's key: the value under `SanitizeKey(key)` when that slot exists, and null otherwise |
| SecureStoreService.Saved | lib/secureStoreService.ts:15 | the store after setItemAsync: the slot `SanitizeKey(key)` holds the value, no other slot is added, and every other slot keeps its value |
| SecureStoreService.Deleted | lib/secureStoreService.ts:38 | the store after deleteItemAsync: the slot `SanitizeKey(key)` is removed, and every remaining slot keeps its value |
| SecureStoreService.SaveKeepsSlotsSanitized | lib/secureStoreService.ts:15 | after a save the sanitised key's slot is present, and every slot is still whitelisted |
| SecureStoreService.DeleteKeepsSlotsSanitized | lib/secureStoreService.ts:38 | a delete removes the slot of the sanitised key and keeps every remaining slot whitelisted |
| SecureStoreService.FetchAfterSave | lib/secureStoreService.ts:13-31 | after save(k, v), get(k') yields v whenever k' sanitises like k; for any other k' it yields what it yielded before |
| SecureStoreService.FetchAfterDelete | lib/secureStoreService.ts:24-42 | after delete(k), get(k') yields null whenever k' sanitises like k; for any other k' it yields what it yielded before |
| SecureStoreService.SaveOverwritesAlias | lib/secureStoreService.ts:13-19 | a later save to an aliasing key replaces the earlier value |
| SecureStoreService.Service.constructor | lib/secureStoreService.ts:9 | the service starts over a store whose slots are all whitelisted keys, and it then holds exactly that store |
| SecureStoreService.Service.Save | lib/secureStoreService.ts:13-19 | it keeps the invariant that every slot is a whitelisted key; on success the store maps the sanitised key to the value; on failure the store is unchanged and no error surfaces |
| SecureStoreService.Service.Get | lib/secureStoreService.ts:24-31 | on failure the result is null; otherwise it is the value stored under the sanitised key, or null when there is none |
| SecureStoreService.Service.Delete | lib/secureStoreService.ts:36-42 | it keeps the invariant that every slot is a whitelisted key; on success the sanitised key's slot is removed and all others are kept; on failure the store is unchanged and no error surfaces |
| SecureStoreService.SaveThenGetAlias | lib/secureStoreService.ts:13-31 | through the class's contracts, a caller that saves under one key reads the value back under any aliasing key |
| SecureStoreService.DeleteThenGetAlias | lib/secureStoreService.ts:24-42 | through the class's contracts, a caller that deletes under one key reads null under any aliasing key |

## Left out

- The platform store in `expo-secure-store` is a foreign library. Its
  encryption at rest, keychain and keystore backends, and Promise scheduling
  are not modelled. The store is an abstract map, and whether each call
  fails is a parameter.
- A failed platform call is assumed to leave the store unchanged. The source
  itself promises nothing about the store's state after a failure.
- Service.constructor: the platform store is assumed to contain only slots
  written through this service, so every slot is a whitelisted key. Other
  code writing to the same store directly could add other keys. The model
  does not cover that, because such code is outside this file.
- The `console.error` logging in the three catch blocks is output and is
  left out.
- The platform stores' own limits on keys and values are part of the
  foreign library and are not modelled. Examples are a non-empty key and
  size limits.
- `lib/ai-prompt.ts` holds a prompt text and metadata stamped with the wall
  clock. It holds no logic to verify.
- `app.config.ts` is static build configuration that reads environment
  variables.
- `components/ErrorBoundary.tsx` is a React UI component, and the screens
  under `app/` are UI composition.
- The daily check-in scoring and insight logic is not part of
  `lib/secureStoreService.ts` and is not modelled.
