/**
 * The object helpers: `objectToArray` copies an object's own keys into a new
 * container, and `extract` moves one key out of an object into a new one.
 * Objects are maps from property name to value.
 */
module ObjectUtils {

  /**
   * `objectToArray`: an object without keys gives an empty result; otherwise
   * every key is copied with its value, in whatever order the keys come.
   */
  method ObjectToArray<V>(obj: map<string, V>) returns (out: map<string, V>)
    ensures out.Keys == obj.Keys
    ensures forall k :: k in out ==> out[k] == obj[k]
  {
    out := map[];
    if |obj.Keys| == 0 {
      return;
    }
    var pending := obj.Keys;
    while pending != {}
      invariant pending <= obj.Keys
      invariant out.Keys == obj.Keys - pending
      invariant forall k :: k in out ==> out[k] == obj[k]
      decreases |pending|
    {
      var key :| key in pending;
      out := out[key := obj[key]];
      pending := pending - {key};
    }
  }

  /**
   * `extract`: returns the new object and what is left of `obj` after the
   * `delete`. A present key moves with its value; an absent key leaves both
   * the new object empty and `obj` as it was.
   */
  function Extract<V>(obj: map<string, V>, key: string): (r: (map<string, V>, map<string, V>))
    ensures r.0.Keys == obj.Keys * {key}
    ensures r.1.Keys == obj.Keys - {key}
    ensures forall k :: k in r.0 ==> r.0[k] == obj[k]
    ensures forall k :: k in r.1 ==> r.1[k] == obj[k]
    ensures r.1 + r.0 == obj
  {
    if key in obj.Keys then (map[key := obj[key]], obj - {key})
    else (map[], obj)
  }
}
