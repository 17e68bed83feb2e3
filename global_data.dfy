/** The global session state of `GlobalDataProvider`: page loading, token
    expiry, remaining login time, the active link and the two most recently
    visited pages. */
module GlobalData {
  import opened Wrappers

  datatype UserLoginData = UserLoginData(username: string, userPassword: string)

  const NotFoundPath := "/paginaNaoEncontrada"
  const AccessDeniedPath := "/acessoNegado"

  /** Whether a navigation is remembered in `lastVisitedPages`: not the
      not-found and access-denied pages, and not a location with the key
      "default" that the router gives to invalid URLs. */
  predicate Remembered(pathname: string, key: string) {
    pathname != NotFoundPath && pathname != AccessDeniedPath && key != "default"
  }

  /** The `lastVisitedPages` after a navigation: the new path and the
      previous latest page ("" when there was none), or the old list. */
  function VisitedPages(previous: seq<string>, pathname: string, key: string): (r: seq<string>)
    ensures Remembered(pathname, key) ==> |r| == 2 && r[0] == pathname
    ensures !Remembered(pathname, key) ==> r == previous
  {
    if Remembered(pathname, key) then [pathname, if previous == [] then "" else previous[0]] else previous
  }

  /** The list is empty until the first remembered navigation and holds two
      pages from then on; after remembered navigations to `a` and then `b`,
      with any number of other navigations around them, it is `[b, a]`. */
  lemma VisitedPagesHistory(previous: seq<string>, a: string, keyA: string,
                             between: seq<(string, string)>, b: string, keyB: string)
    requires |previous| == 0 || |previous| == 2
    requires Remembered(a, keyA) && Remembered(b, keyB)
    requires forall i :: 0 <= i < |between| ==> !Remembered(between[i].0, between[i].1)
    ensures |VisitedPages(previous, a, keyA)| == 2
    ensures VisitedPages(SkipAll(VisitedPages(previous, a, keyA), between), b, keyB) == [b, a]
  {
    SkipAllKeeps(VisitedPages(previous, a, keyA), between);
  }

  /** The list after a run of navigations, each a pathname and a key. */
  function SkipAll(pages: seq<string>, navigations: seq<(string, string)>): seq<string>
    decreases |navigations|
  {
    if navigations == [] then pages
    else SkipAll(VisitedPages(pages, navigations[0].0, navigations[0].1), navigations[1..])
  }

  lemma {:induction false} SkipAllKeeps(pages: seq<string>, navigations: seq<(string, string)>)
    requires forall i :: 0 <= i < |navigations| ==> !Remembered(navigations[i].0, navigations[i].1)
    ensures SkipAll(pages, navigations) == pages
    decreases |navigations|
  {
    if navigations != [] {
      SkipAllKeeps(pages, navigations[1..]);
    }
  }

  class GlobalState {
    var activeLinkUrl: string
    var lastVisitedPages: seq<string>
    var pageLoading: bool
    var tokenHasExpired: bool
    var userLoginTime: int
    var userLoginData: Option<UserLoginData>

    /** The initial state of the provider. */
    constructor ()
      ensures activeLinkUrl == "/" && lastVisitedPages == []
      ensures pageLoading && !tokenHasExpired && userLoginTime == 0 && userLoginData.None?
    {
      activeLinkUrl := "/";
      lastVisitedPages := [];
      pageLoading := true;
      tokenHasExpired := false;
      userLoginTime := 0;
      userLoginData := None;
    }

    /** The effect on a new `location.pathname`: the active link follows the
        path, and a remembered navigation shifts the visited pages. The
        `document.body` style reset is not modelled. */
    method OnPathnameChanged(pathname: string, key: string)
      modifies this
      ensures activeLinkUrl == pathname
      ensures lastVisitedPages == VisitedPages(old(lastVisitedPages), pathname, key)
      ensures pageLoading == old(pageLoading) && tokenHasExpired == old(tokenHasExpired)
      ensures userLoginTime == old(userLoginTime) && userLoginData == old(userLoginData)
    {
      activeLinkUrl := pathname;
      if pathname != NotFoundPath && pathname != AccessDeniedPath && key != "default" {
        lastVisitedPages := [pathname, if |lastVisitedPages| > 0 then lastVisitedPages[0] else ""];
      }
    }
  }
}
