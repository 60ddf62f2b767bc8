/**
  The `usePosts` hook: it builds the request URL from the optional user id
  (the URL is also the cache key handed to the SWR library) and shapes SWR's
  answer for the page. The fetching, caching, deduplication and retrying
  belong to SWR, whose answer is taken here as given.
*/
module UsePosts {
  import opened Wrappers
  import opened Decimal
  import JsParseInt

  const BaseUrl: string := "https://jsonplaceholder.typicode.com/posts"
  const UserQuery: string := "?userId="

  /** JavaScript truthiness of a `number | undefined`: undefined and 0 are falsy. */
  predicate Truthy(userId: Option<int>) {
    userId.Some? && userId.value != 0
  }

  /**
    The URL for a user id. The test is truthiness, so both an absent id and
    the id 0 ask for every post.
  */
  function RequestUrl(userId: Option<int>): (url: string)
    ensures |BaseUrl| <= |url| && url[..|BaseUrl|] == BaseUrl
    ensures url == BaseUrl <==> !Truthy(userId)
  {
    if Truthy(userId) then BaseUrl + UserQuery + IntToDecimal(userId.value) else BaseUrl
  }

  /**
    A filtered URL is the base URL, then "?userId=", then text that parseInt
    reads back as the user id.
  */
  lemma RequestUrlCarriesUserId(k: int)
    requires k != 0
    ensures var url := RequestUrl(Some(k));
      && |BaseUrl + UserQuery| <= |url|
      && url[..|BaseUrl + UserQuery|] == BaseUrl + UserQuery
      && JsParseInt.ParseInt(url[|BaseUrl + UserQuery|..]) == Some(k)
  {
    var url := RequestUrl(Some(k));
    assert url == (BaseUrl + UserQuery) + IntToDecimal(k);
    assert url[|BaseUrl + UserQuery|..] == IntToDecimal(k);
    JsParseInt.ParseIntInvertsIntToDecimal(k);
  }

  /** Each filter has its own cache key: equal URLs mean the same selection. */
  lemma RequestUrlDistinguishesUsers(a: Option<int>, b: Option<int>)
    requires RequestUrl(a) == RequestUrl(b)
    ensures Truthy(a) <==> Truthy(b)
    ensures Truthy(a) ==> a == b
  {
    if Truthy(a) && Truthy(b) {
      var p := BaseUrl + UserQuery;
      assert RequestUrl(a) == p + IntToDecimal(a.value);
      assert RequestUrl(b) == p + IntToDecimal(b.value);
      assert IntToDecimal(a.value) == RequestUrl(a)[|p|..];
      assert IntToDecimal(b.value) == RequestUrl(b)[|p|..];
      JsParseInt.IntToDecimalInjective(a.value, b.value);
    }
  }

  datatype Post = Post(id: int, userId: int, title: string, body: string)

  /** What SWR reports for the current key; `data` and `error` may be undefined. */
  datatype SwrResponse = SwrResponse(
    data: Option<seq<Post>>,
    error: Option<string>,
    isLoading: bool,
    isValidating: bool)

  /** What the hook hands to the page. */
  datatype PostsResult = PostsResult(
    posts: seq<Post>,
    isLoading: bool,
    isError: Option<string>,
    isValidating: bool)

  /**
    `posts` is the fetched list when there is one and the empty list
    otherwise; the error is passed on as it is, so it is truthy exactly when
    there is one; the two flags are passed through.
  */
  function ToPostsResult(response: SwrResponse): (r: PostsResult)
    ensures response.data.Some? ==> r.posts == response.data.value
    ensures response.data.None? ==> r.posts == []
    ensures r.isError.Some? <==> response.error.Some?
    ensures r.isLoading == response.isLoading && r.isValidating == response.isValidating
  {
    PostsResult(
      if response.data.Some? then response.data.value else [],
      response.isLoading,
      response.error,
      response.isValidating)
  }
}
