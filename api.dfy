/**
 * The branch of `getLatestVideos` that decides what the search response
 * yields. Fetching and JSON parsing are outside the model: the parsed
 * response is given as a value.
 */
module Api {
  import opened Wrappers
  import opened Fragments

  /** A parsed JSON value, as far as its truthiness matters. */
  datatype JsValue =
    | JNull
    | JBool(b: bool)
    | JNumber(n: int)
    | JString(s: string)
    | JArray(elements: seq<JsValue>)
    | JObject(members: seq<(string, JsValue)>)

  /**
   * A search response. A field that is absent (`undefined`) is `None`;
   * `items` is also `None` when it is `null`, which JavaScript treats alike.
   */
  datatype SearchResponse = SearchResponse(error: Option<JsValue>, items: Option<seq<VideoItem>>)

  /** JavaScript truthiness of a field: `if (data.error)`. */
  predicate Truthy(field: Option<JsValue>)
  {
    match field
    case None => false
    case Some(JNull) => false
    case Some(JBool(b)) => b
    case Some(JNumber(n)) => n != 0
    case Some(JString(s)) => s != ""
    case Some(JArray(_)) => true
    case Some(JObject(_)) => true
  }

  /**
   * `getLatestVideos` after the fetch: an error field gives no videos, a
   * missing item list gives no videos, and otherwise the items are handed
   * on as the API returned them.
   */
  function LatestVideos(resp: SearchResponse): (r: seq<VideoItem>)
    ensures Truthy(resp.error) ==> r == []
    ensures resp.items.None? ==> r == []
    ensures !Truthy(resp.error) && resp.items.Some? ==> r == resp.items.value
    ensures r == [] || (!Truthy(resp.error) && resp.items == Some(r))
    ensures r != [] <==> !Truthy(resp.error) && resp.items.Some? && resp.items.value != []
  {
    if Truthy(resp.error) then []
    else if resp.items.None? then []
    else resp.items.value
  }
}
