/** The `api_key` table and `isApiKeyValid`: whether a presented key is
    one the service has issued and that has not yet expired. */
module ApiKeys {
  import opened JsValues

  /** A row of `api_key`: the key and the instant it stops being valid. */
  datatype KeyRecord = KeyRecord(key: string, validTo: int)

  /** The row satisfies `api_key = $1 and valid_to_dttm > now()`. */
  predicate Matches(r: KeyRecord, apiKey: string, now: int) {
    r.key == apiKey && r.validTo > now
  }

  /** The `rowCount` of the existence query. */
  function MatchCount(keys: seq<KeyRecord>, apiKey: string, now: int): (n: nat)
    ensures n <= |keys|
    ensures n > 0 <==> exists i :: 0 <= i < |keys| && Matches(keys[i], apiKey, now)
  {
    if keys == [] then 0
    else
      var rest := MatchCount(keys[1..], apiKey, now);
      assert forall i :: 1 <= i < |keys| ==> keys[i] == keys[1..][i - 1];
      (if Matches(keys[0], apiKey, now) then 1 else 0) + rest
  }

  /** `isApiKeyValid`: `undefined` without a query for a key that is not a
      string, `undefined` when the query fails, otherwise whether some row
      matches. */
  function IsApiKeyValid(apiKey: Value, keys: seq<KeyRecord>, now: int, dbFails: bool): (r: Value)
    ensures r == Undefined || r == Bool(true) || r == Bool(false)
    ensures r == Undefined <==> !apiKey.Str? || dbFails
    ensures r == Bool(true) <==>
      apiKey.Str? && !dbFails && exists i :: 0 <= i < |keys| && Matches(keys[i], apiKey.s, now)
    ensures r == Bool(false) <==>
      apiKey.Str? && !dbFails && forall i :: 0 <= i < |keys| ==> !Matches(keys[i], apiKey.s, now)
  {
    if !apiKey.Str? then Undefined
    else if dbFails then Undefined
    else if MatchCount(keys, apiKey.s, now) == 0 then Bool(false)
    else Bool(true)
  }

  /** Expiry is strict: a key whose only record expires exactly now is
      refused. */
  lemma ExpiringNowIsRefused(key: string, now: int)
    ensures IsApiKeyValid(Str(key), [KeyRecord(key, now)], now, false) == Bool(false)
  {
  }

  /** A key that is valid now was valid at every earlier instant. */
  lemma {:induction false} ValidEarlier(apiKey: string, keys: seq<KeyRecord>, earlier: int, now: int)
    requires earlier <= now
    requires IsApiKeyValid(Str(apiKey), keys, now, false) == Bool(true)
    ensures IsApiKeyValid(Str(apiKey), keys, earlier, false) == Bool(true)
  {
    var i :| 0 <= i < |keys| && Matches(keys[i], apiKey, now);
    assert Matches(keys[i], apiKey, earlier);
  }

  /** Issuing a record never invalidates a key, and a record issued for
      another key changes nothing for this one. */
  lemma {:induction false} IssueKeepsValidity(apiKey: string, keys: seq<KeyRecord>, issued: KeyRecord, now: int)
    ensures IsApiKeyValid(Str(apiKey), keys, now, false) == Bool(true) ==>
      IsApiKeyValid(Str(apiKey), keys + [issued], now, false) == Bool(true)
    ensures issued.key != apiKey ==>
      IsApiKeyValid(Str(apiKey), keys + [issued], now, false) == IsApiKeyValid(Str(apiKey), keys, now, false)
  {
    var more := keys + [issued];
    assert forall i :: 0 <= i < |keys| ==> more[i] == keys[i];
    if issued.key != apiKey {
      assert forall i :: 0 <= i < |more| && Matches(more[i], apiKey, now) ==> i < |keys|;
    }
  }
}
