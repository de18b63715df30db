/**
 * The secure key-value service of the app (lib/secureStoreService.ts): a key
 * sanitiser that every storage operation applies to the caller's key, the
 * three storage operations over the platform's encrypted store, and the
 * well-known keys the app stores under.
 */
module SecureStoreService {
  import opened JsText

  datatype Option<T> = None | Some(value: T)

  // ---------------------------------------------------------------------------
  // The key sanitiser: key.replace(/[^a-zA-Z0-9.\-_]/g, '_')
  // ---------------------------------------------------------------------------

  /** The replacement for every code unit outside the whitelist, '_'. */
  const Underscore: CodeUnit := 0x5F

  predicate Between(u: CodeUnit, lo: char, hi: char) {
    lo as int <= u as int <= hi as int
  }

  /** The whitelist of the character class: ASCII letters, digits, '.', '-' and '_'. */
  predicate IsKeyUnit(u: CodeUnit) {
    || Between(u, 'a', 'z')
    || Between(u, 'A', 'Z')
    || Between(u, '0', '9')
    || u as int == '.' as int
    || u as int == '-' as int
    || u as int == '_' as int
  }

  /** A key that needs no sanitising: every code unit is whitelisted. */
  predicate IsKey(k: JsString) {
    forall i :: 0 <= i < |k| ==> IsKeyUnit(k[i])
  }

  /** What the regular expression does to one code unit. */
  function SanitizeUnit(u: CodeUnit): (r: CodeUnit)
    ensures IsKeyUnit(r)
    ensures r == u <==> IsKeyUnit(u)
    ensures !IsKeyUnit(u) ==> r == Underscore
  {
    if IsKeyUnit(u) then u else Underscore
  }

  /**
   * sanitizeKey: one output unit per input unit; whitelisted units stay where
   * they are, every other unit becomes '_'.
   */
  function SanitizeKey(key: JsString): (r: JsString)
    ensures |r| == |key|
    ensures IsKey(r)
    ensures forall i :: 0 <= i < |key| && IsKeyUnit(key[i]) ==> r[i] == key[i]
    ensures forall i :: 0 <= i < |key| && !IsKeyUnit(key[i]) ==> r[i] == Underscore
  {
    if key == [] then [] else [SanitizeUnit(key[0])] + SanitizeKey(key[1..])
  }

  /** The pointwise description above determines the sanitised key completely. */
  lemma SanitizeKeyUnique(key: JsString, r: JsString)
    requires |r| == |key|
    requires forall i :: 0 <= i < |key| ==> r[i] == (if IsKeyUnit(key[i]) then key[i] else Underscore)
    ensures r == SanitizeKey(key)
  {
    var s := SanitizeKey(key);
    assert forall i :: 0 <= i < |key| ==> r[i] == s[i];
  }

  /** Sanitising a sanitised key changes nothing, since '_' is whitelisted. */
  lemma SanitizeKeyIdempotent(key: JsString)
    ensures SanitizeKey(SanitizeKey(key)) == SanitizeKey(key)
  {
    SanitizeKeyFixedPoint(SanitizeKey(key));
  }

  /** The fixed points of the sanitiser are exactly the whitelisted keys. */
  lemma SanitizeKeyFixedPoint(key: JsString)
    ensures SanitizeKey(key) == key <==> IsKey(key)
  {
    if IsKey(key) {
      var s := SanitizeKey(key);
      assert forall i :: 0 <= i < |key| ==> s[i] == key[i];
    }
  }

  /** Sanitising works on each part of a key independently. */
  lemma {:induction false} SanitizeKeyAppend(a: JsString, b: JsString)
    ensures SanitizeKey(a + b) == SanitizeKey(a) + SanitizeKey(b)
  {
    if a == [] {
      assert a + b == b;
    } else {
      assert (a + b)[0] == a[0];
      assert (a + b)[1..] == a[1..] + b;
      SanitizeKeyAppend(a[1..], b);
    }
  }

  /** A unit that the sanitiser writes as '_': a non-whitelisted unit or '_' itself. */
  predicate IsBlank(u: CodeUnit) {
    !IsKeyUnit(u) || u == Underscore
  }

  /**
   * Two caller keys address the same storage slot exactly when they have the
   * same length and, position by position, agree or are both blanks.
   */
  lemma SameSlotIff(a: JsString, b: JsString)
    ensures SanitizeKey(a) == SanitizeKey(b) <==>
              |a| == |b| && forall i :: 0 <= i < |a| ==> a[i] == b[i] || (IsBlank(a[i]) && IsBlank(b[i]))
  {
    var sa, sb := SanitizeKey(a), SanitizeKey(b);
    if sa == sb {
      forall i | 0 <= i < |a|
        ensures a[i] == b[i] || (IsBlank(a[i]) && IsBlank(b[i]))
      {
        assert sa[i] == sb[i];
      }
    }
    if |a| == |b| && forall i :: 0 <= i < |a| ==> a[i] == b[i] || (IsBlank(a[i]) && IsBlank(b[i])) {
      assert forall i :: 0 <= i < |a| ==> sa[i] == sb[i];
    }
  }

  /** Distinct whitelisted keys never share a slot. */
  lemma SanitizeKeyInjectiveOnKeys(a: JsString, b: JsString)
    requires IsKey(a) && IsKey(b)
    requires SanitizeKey(a) == SanitizeKey(b)
    ensures a == b
  {
    SanitizeKeyFixedPoint(a);
    SanitizeKeyFixedPoint(b);
  }

  /** In general the sanitiser is not injective: "a b" and "a/b" alias the slot "a_b". */
  lemma SanitizeKeyNotInjective()
    ensures Utf16("a b") != Utf16("a/b")
    ensures SanitizeKey(Utf16("a b")) == SanitizeKey(Utf16("a/b")) == Utf16("a_b")
  {
    var x, y, z := Utf16("a b"), Utf16("a/b"), Utf16("a_b");
    assert x[1] != y[1];
    SanitizeKeyUnique(x, z);
    SanitizeKeyUnique(y, z);
  }

  /**
   * The sanitiser works per code unit, not per character: a character outside
   * the Basic Multilingual Plane (an emoji, say) becomes two underscores.
   */
  lemma AstralCharBecomesTwoUnderscores(c: char)
    requires c as int >= 0x1_0000
    ensures SanitizeKey(Utf16([c])) == [Underscore, Underscore]
  {
    var e := Utf16([c]);
    assert e == EncodeChar(c);
    SanitizeKeyUnique(e, [Underscore, Underscore]);
  }

  /**
   * The aliasing is not an edge case of short keys: "a b" and "a/b" reach the
   * same slot inside any surrounding key, although the keys differ.
   */
  lemma AliasInAnyContext(p: string, q: string)
    ensures Utf16(p + "a b" + q) != Utf16(p + "a/b" + q)
    ensures SanitizeKey(Utf16(p + "a b" + q)) == SanitizeKey(Utf16(p + "a/b" + q))
  {
    var x, y := p + "a b" + q, p + "a/b" + q;
    assert x[|p| + 1] != y[|p| + 1];
    if Utf16(x) == Utf16(y) {
      Utf16Injective(x, y);
    }
    Utf16Append(p + "a b", q);
    Utf16Append(p, "a b");
    Utf16Append(p + "a/b", q);
    Utf16Append(p, "a/b");
    SanitizeKeyAppend(Utf16(p) + Utf16("a b"), Utf16(q));
    SanitizeKeyAppend(Utf16(p), Utf16("a b"));
    SanitizeKeyAppend(Utf16(p) + Utf16("a/b"), Utf16(q));
    SanitizeKeyAppend(Utf16(p), Utf16("a/b"));
    SanitizeKeyNotInjective();
  }

  // ---------------------------------------------------------------------------
  // KEYS: the keys the app stores under
  // ---------------------------------------------------------------------------

  datatype StoreKey = AuthToken | UserId | HealthConsent | LastSyncTimestamp

  /** The whitelist on the Dafny characters of a string literal. */
  predicate IsKeyChar(c: char) {
    'a' <= c <= 'z' || 'A' <= c <= 'Z' || '0' <= c <= '9' || c == '.' || c == '-' || c == '_'
  }

  /** The literal each well-known key stands for: a non-empty run of whitelisted characters. */
  function KeyText(k: StoreKey): (r: string)
    ensures |r| > 0
    ensures forall i :: 0 <= i < |r| ==> IsKeyChar(r[i])
  {
    match k
    case AuthToken => "curable_auth_token"
    case UserId => "curable_user_id"
    case HealthConsent => "curable_health_consent"
    case LastSyncTimestamp => "curable_last_sync"
  }

  /** The key a caller passes for a well-known key. */
  function KeyName(k: StoreKey): JsString {
    Utf16(KeyText(k))
  }

  /** A literal made of whitelisted characters denotes a whitelisted key of the same length. */
  lemma KeyLiteral(s: string)
    requires forall i :: 0 <= i < |s| ==> IsKeyChar(s[i])
    ensures |Utf16(s)| == |s|
    ensures IsKey(Utf16(s))
  {
    assert InBasicPlane(s);
  }

  /** Every well-known key is whitelisted, so it is stored under its own name. */
  lemma KeyNamesAreFixedPoints(k: StoreKey)
    ensures |KeyName(k)| == |KeyText(k)|
    ensures IsKey(KeyName(k))
    ensures SanitizeKey(KeyName(k)) == KeyName(k)
  {
    KeyLiteral(KeyText(k));
    SanitizeKeyFixedPoint(KeyName(k));
  }

  /** The well-known keys address four distinct slots. */
  lemma KeyNamesHaveDistinctSlots(k: StoreKey, l: StoreKey)
    requires k != l
    ensures SanitizeKey(KeyName(k)) != SanitizeKey(KeyName(l))
  {
    KeyTextsDiffer(k, l);
    if KeyName(k) == KeyName(l) {
      Utf16Injective(KeyText(k), KeyText(l));
    }
    KeyNamesAreFixedPoints(k);
    KeyNamesAreFixedPoints(l);
  }

  /** The four literals are pairwise different (they even differ in length). */
  lemma KeyTextsDiffer(k: StoreKey, l: StoreKey)
    requires k != l
    ensures KeyText(k) != KeyText(l)
  {
    assert |KeyText(k)| != |KeyText(l)| by {
      match k
      case AuthToken =>
      case UserId =>
      case HealthConsent =>
      case LastSyncTimestamp =>
    }
  }

  // ---------------------------------------------------------------------------
  // The store, as a map from sanitised keys to values
  // ---------------------------------------------------------------------------

  /** What getItemAsync reads for a caller's key; None is JavaScript's null. */
  function Fetched(slots: map<JsString, JsString>, key: JsString): (r: Option<JsString>)
    ensures r.Some? <==> SanitizeKey(key) in slots
    ensures r.Some? ==> r.value == slots[SanitizeKey(key)]
  {
    var slot := SanitizeKey(key);
    if slot in slots then Some(slots[slot]) else None
  }

  /** The store after a successful setItemAsync for a caller's key. */
  function Saved(slots: map<JsString, JsString>, key: JsString, value: JsString): (r: map<JsString, JsString>)
    ensures r.Keys == slots.Keys + {SanitizeKey(key)}
    ensures r[SanitizeKey(key)] == value
    ensures forall slot :: slot in slots && slot != SanitizeKey(key) ==> r[slot] == slots[slot]
  {
    slots[SanitizeKey(key) := value]
  }

  /** The store after a successful deleteItemAsync for a caller's key. */
  function Deleted(slots: map<JsString, JsString>, key: JsString): (r: map<JsString, JsString>)
    ensures r.Keys == slots.Keys - {SanitizeKey(key)}
    ensures forall slot :: slot in r ==> r[slot] == slots[slot]
  {
    slots - {SanitizeKey(key)}
  }

  /** Only sanitised keys ever become slots. */
  ghost predicate SlotsSanitized(slots: map<JsString, JsString>) {
    forall slot :: slot in slots ==> IsKey(slot)
  }

  lemma SaveKeepsSlotsSanitized(slots: map<JsString, JsString>, key: JsString, value: JsString)
    requires SlotsSanitized(slots)
    ensures SlotsSanitized(Saved(slots, key, value))
    ensures SanitizeKey(key) in Saved(slots, key, value)
  {
  }

  lemma DeleteKeepsSlotsSanitized(slots: map<JsString, JsString>, key: JsString)
    requires SlotsSanitized(slots)
    ensures SlotsSanitized(Deleted(slots, key))
    ensures SanitizeKey(key) !in Deleted(slots, key)
  {
  }

  /**
   * A get after a save returns the saved value for every key that sanitises
   * to the same slot, and what it returned before for every other key.
   */
  lemma FetchAfterSave(slots: map<JsString, JsString>, key: JsString, value: JsString, other: JsString)
    ensures Fetched(Saved(slots, key, value), other) ==
              if SanitizeKey(other) == SanitizeKey(key) then Some(value) else Fetched(slots, other)
  {
  }

  /**
   * A get after a delete returns null for every key that sanitises to the
   * deleted slot, and what it returned before for every other key.
   */
  lemma FetchAfterDelete(slots: map<JsString, JsString>, key: JsString, other: JsString)
    ensures Fetched(Deleted(slots, key), other) ==
              if SanitizeKey(other) == SanitizeKey(key) then None else Fetched(slots, other)
  {
  }

  /** A later save to an aliasing key overwrites the earlier one. */
  lemma SaveOverwritesAlias(slots: map<JsString, JsString>, key: JsString, alias: JsString, v: JsString, w: JsString)
    requires SanitizeKey(alias) == SanitizeKey(key)
    ensures Saved(Saved(slots, key, v), alias, w) == Saved(slots, alias, w)
  {
  }

  /**
   * The service object. `slots` is the content of the platform's secure
   * store; each operation takes the outcome of the platform call as the
   * parameter `storeFails`, since the platform store is not part of this model.
   * None of the operations reports an error to its caller.
   */
  class Service {
    var slots: map<JsString, JsString>

    /** Every slot was written through the sanitiser. */
    ghost predicate Valid()
      reads this
    {
      SlotsSanitized(slots)
    }

    constructor (initial: map<JsString, JsString>)
      requires SlotsSanitized(initial)
      ensures Valid()
      ensures slots == initial
    {
      slots := initial;
    }

    /** save: store the value under the sanitised key; a failure is logged and swallowed. */
    method Save(key: JsString, value: JsString, storeFails: bool)
      requires Valid()
      modifies this
      ensures Valid()
      ensures slots == if storeFails then old(slots) else Saved(old(slots), key, value)
    {
      if !storeFails {
        SaveKeepsSlotsSanitized(slots, key, value);
        slots := slots[SanitizeKey(key) := value];
      }
    }

    /** get: the value under the sanitised key, or null when it is absent or the store fails. */
    method Get(key: JsString, storeFails: bool) returns (r: Option<JsString>)
      ensures storeFails ==> r == None
      ensures !storeFails ==> r == Fetched(slots, key)
      ensures r.Some? ==> SanitizeKey(key) in slots && r.value == slots[SanitizeKey(key)]
    {
      if storeFails {
        r := None;
      } else {
        var slot := SanitizeKey(key);
        r := if slot in slots then Some(slots[slot]) else None;
      }
    }

    /** delete: remove the sanitised key; a failure is logged and swallowed. */
    method Delete(key: JsString, storeFails: bool)
      requires Valid()
      modifies this
      ensures Valid()
      ensures slots == if storeFails then old(slots) else Deleted(old(slots), key)
    {
      if !storeFails {
        DeleteKeepsSlotsSanitized(slots, key);
        slots := slots - {SanitizeKey(key)};
      }
    }
  }

  /** A caller that saves under one key reads the value back under any aliasing key. */
  method SaveThenGetAlias(s: Service, key: JsString, alias: JsString, value: JsString) returns (r: Option<JsString>)
    requires s.Valid()
    requires SanitizeKey(alias) == SanitizeKey(key)
    modifies s
    ensures r == Some(value)
  {
    s.Save(key, value, false);
    r := s.Get(alias, false);
    FetchAfterSave(old(s.slots), key, value, alias);
  }

  /** A caller that deletes under one key reads null back under any aliasing key. */
  method DeleteThenGetAlias(s: Service, key: JsString, alias: JsString) returns (r: Option<JsString>)
    requires s.Valid()
    requires SanitizeKey(alias) == SanitizeKey(key)
    modifies s
    ensures r == None
  {
    s.Delete(key, false);
    r := s.Get(alias, false);
  }
}
