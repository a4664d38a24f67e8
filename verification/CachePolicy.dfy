/**
 * The capability contract that every cache engine implements: the error
 * surface (a missing key, an invalid capacity or K, a bookkeeping failure),
 * the exception messages, and the promises of get / put / contains / size /
 * capacity / empty / clear stated once, as predicates over the abstract
 * contents (a map from keys to values) before and after an operation.
 * Each engine's methods ensure these predicates of their own contents.
 */
module CachePolicy {

  /** The exceptions the engines throw. */
  datatype CacheError =
    | KeyNotFound(cacheName: string)   // std::out_of_range("Key not found in <name> cache")
    | InvalidCapacity(capacity: int)   // InvalidCapacityException
    | InvalidK(k: int)                 // std::invalid_argument from the LRU-K constructor
    | InternalError(reason: string)    // std::runtime_error for a bookkeeping defect

  datatype Result<T> = Ok(value: T) | Err(error: CacheError)

  datatype Option<T> = None | Some(value: T)

  /** InvalidCapacityException derives from CachePolicyException; the other errors are standard exceptions. */
  predicate IsCachePolicyException(e: CacheError)
  {
    e.InvalidCapacity?
  }

  const CachePolicyPrefix: string := "CachePolicy Error: "
  const InvalidCapacityLead: string := "Invalid capacity: "
  const InvalidCapacityTail: string := ". Capacity must be greater than 0."

  /** The message `what()` returns for each error. */
  function What(e: CacheError): (m: string)
    ensures IsCachePolicyException(e) ==> CachePolicyPrefix <= m
  {
    match e
    case KeyNotFound(name) => "Key not found in " + name + " cache"
    case InvalidCapacity(c) => CachePolicyPrefix + (InvalidCapacityLead + IntToString(c) + InvalidCapacityTail)
    case InvalidK(_) => "K value must be greater than 0"
    case InternalError(reason) => reason
  }

  /** A capacity is accepted exactly when it is positive; otherwise construction fails. */
  function CheckCapacity(capacity: int): (r: Option<CacheError>)
    ensures r.None? <==> capacity > 0
    ensures r.Some? ==> r.value == InvalidCapacity(capacity) && IsCachePolicyException(r.value)
  {
    if capacity <= 0 then Some(InvalidCapacity(capacity)) else None
  }

  // ---------------------------------------------------------------------------
  // Decimal rendering of integers, as std::to_string does it, and its inverse.

  predicate IsDigit(c: char)
  {
    '0' <= c <= '9'
  }

  function DigitChar(d: int): (c: char)
    requires 0 <= d < 10
    ensures IsDigit(c)
  {
    ('0' as int + d) as char
  }

  function DigitValue(c: char): int
    requires IsDigit(c)
  {
    c as int - '0' as int
  }

  /** The decimal digits of `n`, most significant first, without leading zeros. */
  function NatToString(n: nat): string
    decreases n
  {
    if n < 10 then [DigitChar(n)] else NatToString(n / 10) + [DigitChar(n % 10)]
  }

  /** std::to_string on an int: a minus sign for negative values. */
  function IntToString(i: int): string
  {
    if i < 0 then "-" + NatToString(-i) else NatToString(i)
  }

  predicate AllDigits(s: string)
  {
    forall i :: 0 <= i < |s| ==> IsDigit(s[i])
  }

  function ParseNat(s: string): nat
    requires AllDigits(s)
  {
    if s == [] then 0 else ParseNat(s[..|s| - 1]) * 10 + DigitValue(s[|s| - 1])
  }

  /** Reads back an optionally signed decimal; anything else is rejected. */
  function ParseInt(s: string): Option<int>
  {
    if |s| > 1 && s[0] == '-' && AllDigits(s[1..]) then Some(0 - ParseNat(s[1..]) as int)
    else if |s| > 0 && AllDigits(s) then Some(ParseNat(s))
    else None
  }

  lemma {:induction false} NatToStringRoundTrip(n: nat)
    ensures |NatToString(n)| > 0 && AllDigits(NatToString(n))
    ensures NatToString(n)[0] != '-'
    ensures ParseNat(NatToString(n)) == n
  {
    if n >= 10 {
      NatToStringRoundTrip(n / 10);
      var s := NatToString(n);
      assert s[..|s| - 1] == NatToString(n / 10);
    }
  }

  /** std::to_string loses nothing: the integer can be read back from its rendering. */
  lemma IntToStringRoundTrip(i: int)
    ensures ParseInt(IntToString(i)) == Some(i)
  {
    if i < 0 {
      NatToStringRoundTrip(-i);
      assert IntToString(i)[1..] == NatToString(-i);
    } else {
      NatToStringRoundTrip(i);
    }
  }

  /** Recovers the capacity quoted in an InvalidCapacityException message, if it is one. */
  function CapacityInMessage(m: string): Option<int>
  {
    var lead := CachePolicyPrefix + InvalidCapacityLead;
    if |m| >= |lead| + |InvalidCapacityTail| && lead <= m && m[|m| - |InvalidCapacityTail|..] == InvalidCapacityTail
    then ParseInt(m[|lead|..|m| - |InvalidCapacityTail|])
    else None
  }

  /** The message of InvalidCapacityException embeds exactly the rejected capacity. */
  lemma InvalidCapacityMessageQuotesCapacity(c: int)
    ensures CapacityInMessage(What(InvalidCapacity(c))) == Some(c)
  {
    var lead := CachePolicyPrefix + InvalidCapacityLead;
    var digits := IntToString(c);
    var m := What(InvalidCapacity(c));
    assert m == lead + digits + InvalidCapacityTail;
    assert m[|lead|..|m| - |InvalidCapacityTail|] == digits;
    assert m[|m| - |InvalidCapacityTail|..] == InvalidCapacityTail;
    IntToStringRoundTrip(c);
  }

  // ---------------------------------------------------------------------------
  // The contract, over the abstract contents before and after one operation.

  /** get: the stored value for a present key; KeyNotFound otherwise; the contents do not change. */
  ghost predicate GetSpec<K, V>(before: map<K, V>, after: map<K, V>, key: K, r: Result<V>)
  {
    && after == before
    && (r.Ok? <==> key in before)
    && (r.Ok? ==> r.value == before[key])
    && (r.Err? ==> r.error.KeyNotFound?)
  }

  /**
   * put: insert-or-update. Afterwards the key maps to the value, every other
   * remaining key keeps its value, updating a present key removes nothing,
   * and inserting a new key removes at most one other key (the victim).
   */
  ghost predicate PutSpec<K, V>(before: map<K, V>, after: map<K, V>, key: K, value: V)
  {
    && key in after && after[key] == value
    && (forall k :: k in after && k != key ==> k in before && after[k] == before[k])
    && (key in before ==> after.Keys == before.Keys)
    && (key !in before ==> |before.Keys - after.Keys| <= 1)
  }

  /** Updating a present key is a put that removes nothing. */
  lemma PutUpdates<K, V>(before: map<K, V>, key: K, value: V)
    requires key in before
    ensures PutSpec(before, before[key := value], key, value)
  {
    assert before[key := value].Keys == before.Keys;
  }

  /** Inserting an absent key, with or without evicting one other key first, is a put. */
  lemma PutInserts<K, V>(before: map<K, V>, key: K, value: V)
    requires key !in before
    ensures PutSpec(before, before[key := value], key, value)
  {
    assert before.Keys - before[key := value].Keys == {};
  }

  /** Inserting an absent key after evicting `victim` is a put whose one casualty is the victim. */
  lemma PutEvicts<K, V>(before: map<K, V>, victim: K, key: K, value: V)
    requires key !in before && victim in before
    ensures PutSpec(before, (before - {victim})[key := value], key, value)
    ensures EvictsOnly(before, (before - {victim})[key := value], victim)
  {
    var after := (before - {victim})[key := value];
    assert before.Keys - after.Keys == {victim};
  }

  /** The eviction victim of an insertion, when the contents were full, is the one key that left. */
  ghost predicate EvictsOnly<K, V>(before: map<K, V>, after: map<K, V>, victim: K)
  {
    victim in before && victim !in after && before.Keys - after.Keys == {victim}
  }
}
