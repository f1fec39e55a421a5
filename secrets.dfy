/** The secret resolver: string values carrying the `ssm@` prefix are looked
    up in the parameter store, and the results are kept in the process-wide
    cache (ssmMap). */
module Secrets {
  import opened Wrappers
  import Text

  const SupportedProtocolPrefix: string := "ssm@"

  /** FetchFromSSM's look-up key: what follows the first '@' of the string,
      or the whole string when it has no '@'. */
  function SsmLookupKey(ssmString: string): (key: string)
    ensures '@' !in ssmString ==> key == ssmString
    ensures '@' in ssmString ==>
              exists i :: 0 <= i < |ssmString| && ssmString[i] == '@' && '@' !in ssmString[..i] && key == ssmString[i + 1..]
  {
    ssmString[Text.IndexOf(ssmString, '@') + 1..]
  }

  /** For a string with the supported prefix the look-up key is everything
      after the prefix, even when the key itself contains an '@'. */
  lemma PrefixedLookupKey(ssmString: string)
    requires SupportedProtocolPrefix <= ssmString
    ensures SsmLookupKey(ssmString) == ssmString[|SupportedProtocolPrefix|..]
  {
    assert ssmString[..3] == "ssm";
    assert ssmString[3] == '@';
  }

  /** The result of resolving one string: the text to return (None when the
      parameter-store fetch failed) and the new cache. */
  datatype Resolution = Resolution(text: Option<string>, cache: map<string, string>)

  /** The resolution step shared by String and StringOr, for the raw string
      `val` read at dotted key `key`; `fetch` is the parameter store. */
  function Resolve(cache: map<string, string>, key: string, val: string, fetch: string -> Option<string>): (r: Resolution)
    // a cache hit on the value short-circuits
    ensures val in cache ==> r == Resolution(Some(cache[val]), cache)
    // an indirection string is fetched once and cached under itself on success
    ensures val !in cache && SupportedProtocolPrefix <= val ==>
              r.text == fetch(SsmLookupKey(val)) &&
              r.cache == (if r.text.Some? then cache[val := r.text.value] else cache)
    // a plain value is returned unchanged and cached under the dotted key
    ensures val !in cache && !(SupportedProtocolPrefix <= val) ==> r == Resolution(Some(val), cache[key := val])
    // entries are never evicted; only `key` or `val` may be added or changed
    ensures cache.Keys <= r.cache.Keys <= cache.Keys + {key, val}
    ensures forall k :: k in cache && k != key ==> r.cache[k] == cache[k]
    // only a failed fetch yields no text, and it leaves the cache alone
    ensures r.text.None? <==> val !in cache && SupportedProtocolPrefix <= val && fetch(SsmLookupKey(val)).None?
    ensures r.text.None? ==> r.cache == cache
  {
    if val in cache then Resolution(Some(cache[val]), cache)
    else if SupportedProtocolPrefix <= val then
      match fetch(SsmLookupKey(val))
      case Some(secret) => Resolution(Some(secret), cache[val := secret])
      case None => Resolution(None, cache)
    else Resolution(Some(val), cache[key := val])
  }

  /** Once a resolution has produced a text, resolving the same string at the
      same key again gives the same text and the same cache, whatever the
      parameter store answers the second time. */
  lemma ResolveIdempotent(cache: map<string, string>, key: string, val: string, fetch: string -> Option<string>,
                          fetch': string -> Option<string>)
    requires Resolve(cache, key, val, fetch).text.Some?
    ensures var r := Resolve(cache, key, val, fetch);
            Resolve(r.cache, key, val, fetch') == r
  {
  }

  /** A failed fetch is not cached: the next resolution of the same string
      asks the parameter store again, and gets whatever it answers then. */
  lemma FailedFetchRetried(cache: map<string, string>, key: string, val: string, fetch: string -> Option<string>,
                           key': string, fetch': string -> Option<string>)
    requires Resolve(cache, key, val, fetch).text.None?
    ensures Resolve(Resolve(cache, key, val, fetch).cache, key', val, fetch') == Resolve(cache, key', val, fetch')
  {
  }

  /** Memoisation: once an indirection string has been resolved, resolving it
      again, from any key, returns the cached secret whatever the parameter
      store would answer, so the store is consulted at most once. */
  lemma ResolveMemoizes(cache: map<string, string>, key: string, val: string, fetch: string -> Option<string>,
                        key': string, fetch': string -> Option<string>)
    requires SupportedProtocolPrefix <= val
    requires Resolve(cache, key, val, fetch).text.Some?
    ensures var r := Resolve(cache, key, val, fetch);
            Resolve(r.cache, key', val, fetch') == r
  {
  }

  /** A plain value is cached under its dotted key, not under itself: a later
      value spelled like that key resolves to the earlier key's value instead
      of passing through unchanged. */
  lemma PlainValueCachedUnderKey(cache: map<string, string>, key: string, val: string, key': string,
                                 fetch: string -> Option<string>)
    requires val !in cache && !(SupportedProtocolPrefix <= val)
    ensures var r := Resolve(cache, key, val, fetch);
            Resolve(r.cache, key', key, fetch).text == Some(val)
  {
  }
}
