/** `checkApiKey`, the middleware every `/book` request passes first: it
    answers the request itself, or hands it on to the router. */
module Auth {
  import opened JsValues
  import opened Outcomes
  import opened ApiKeys

  const MissingKeyMessage := "API Key is missing"

  /** What the middleware does with a request: answer it with a status
      (and, for a missing header, a message), or call `next`. */
  datatype Decision = Reject(status: int, message: Option<string>) | Next

  /** `authHeader.substring(6)`: the header without its first six
      characters, which is empty for a shorter header. The scheme word is
      not looked at. */
  function ExtractApiKey(header: string): (key: string)
    ensures |header| <= 6 ==> key == ""
    ensures |header| > 6 ==> |key| == |header| - 6 && header[6..] == key
  {
    if |header| <= 6 then "" else header[6..]
  }

  /** Whatever six characters precede the key, the key read is the same. */
  lemma SchemeIsIgnored(scheme: string, key: string)
    requires |scheme| == 6
    ensures ExtractApiKey(scheme + key) == key
  {
    assert (scheme + key)[6..] == key;
  }

  /** The middleware's answer once the lookup has returned or thrown:
      500 when it threw or gave `undefined`, 401 when it gave `false`,
      `next` for anything else. */
  function AfterLookup(check: Outcome<Value>): (d: Decision)
    ensures d == Next <==> check.Returned? && check.value != Undefined && check.value != Bool(false)
    ensures d == Reject(401, None) <==> check == Returned(Bool(false))
    ensures d != Next && d != Reject(401, None) ==> d == Reject(500, None)
  {
    if check.Threw? then Reject(500, None)
    else if check.value == Undefined then Reject(500, None)
    else if check.value == Bool(false) then Reject(401, None)
    else Next
  }

  /** `checkApiKey` for a request whose `Authorization` header is `header`
      (None when absent), over the key table at time `now`. */
  function CheckApiKey(header: Option<string>, keys: seq<KeyRecord>, now: int, dbFails: bool): (d: Decision)
    ensures header.None? ==> d == Reject(400, Some(MissingKeyMessage))
    ensures header.Some? ==> d == AfterLookup(Returned(IsApiKeyValid(Str(ExtractApiKey(header.value)), keys, now, dbFails)))
  {
    if header.None? then Reject(400, Some(MissingKeyMessage))
    else
      var apiKey := ExtractApiKey(header.value);
      AfterLookup(Returned(IsApiKeyValid(Str(apiKey), keys, now, dbFails)))
  }

  /** The request reaches the router exactly when a header is present and
      some record holds the key it carries with an expiry after now. */
  lemma AdmitsExactlyValidKeys(header: Option<string>, keys: seq<KeyRecord>, now: int, dbFails: bool)
    ensures CheckApiKey(header, keys, now, dbFails) == Next <==>
      header.Some? && !dbFails &&
      exists i :: 0 <= i < |keys| && Matches(keys[i], ExtractApiKey(header.value), now)
  {
  }

  /** The three refusals once a header is present: 500 for a failed lookup,
      401 for a key with no live record. */
  lemma RefusalsWithHeader(header: string, keys: seq<KeyRecord>, now: int, dbFails: bool)
    ensures dbFails ==> CheckApiKey(Some(header), keys, now, dbFails) == Reject(500, None)
    ensures !dbFails && (forall i :: 0 <= i < |keys| ==> !Matches(keys[i], ExtractApiKey(header), now)) ==>
      CheckApiKey(Some(header), keys, now, dbFails) == Reject(401, None)
  {
  }

  /** Two headers that differ only in their first six characters get the
      same answer, so `Basic <key>` and `Bearer<key>` are treated alike. */
  lemma SchemeDoesNotMatter(s1: string, s2: string, key: string, keys: seq<KeyRecord>, now: int, dbFails: bool)
    requires |s1| == 6 && |s2| == 6
    ensures CheckApiKey(Some(s1 + key), keys, now, dbFails) == CheckApiKey(Some(s2 + key), keys, now, dbFails)
  {
    SchemeIsIgnored(s1, key);
    SchemeIsIgnored(s2, key);
  }
}
