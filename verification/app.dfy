/** The page and group routing of the application's `main` (app.py).

    Only the decision is modelled: which screen the main area shows for a
    session and the page picked in the sidebar. Rendering is left out.
 */
module App {
  import opened Wrappers
  import opened Text
  import opened Auth

  /** The sidebar's pages ("Chat", "Dashboard", "System"). */
  datatype Page = ChatPage | DashboardPage | SystemPage

  /** What the main area renders. */
  datatype Screen =
    | LoginForm
    | GroupBlocked
    | ChatScreen
    | DashboardScreen
    | SystemScreen
    | ExplainerPlaceholder
    | UnknownGroup

  /** Only an admin gets the select box; everyone else is on the chat page. */
  function SelectedPage(admin: bool, choice: Page): (p: Page)
    ensures !admin ==> p == ChatPage
    ensures admin ==> p == choice
  {
    if admin then choice else ChatPage
  }

  /** The screen that renders a page. */
  function Show(p: Page): (r: Screen)
    ensures r in {ChatScreen, DashboardScreen, SystemScreen}
    ensures r == ChatScreen <==> p == ChatPage
  {
    match p
    case ChatPage => ChatScreen
    case DashboardPage => DashboardScreen
    case SystemPage => SystemScreen
  }

  /** Python's `v == n` for a stored group value and an int: a bool
      compares as 0 or 1, every other non-number is unequal. */
  predicate GroupIs(v: Auth.Value, n: int) {
    match v
    case Number(m) => m == n
    case Flag(b) => (if b then 1 else 0) == n
    case _ => false
  }

  /** The main area: the login form without authentication; then group 1 is
      blocked, group 2 sees its page, group 3 the explainer placeholder, an
      admin of any other group sees its page, and anyone else an error. */
  function Route(s: Session, choice: Page): (r: Screen)
    ensures r == LoginForm <==> !IsAuthenticated(s)
    ensures r == GroupBlocked <==> IsAuthenticated(s) && GroupIs(Get(s, GroupKey), 1)
    ensures r == ExplainerPlaceholder <==> IsAuthenticated(s) && GroupIs(Get(s, GroupKey), 3)
    ensures r == UnknownGroup <==>
              IsAuthenticated(s) && !IsAdmin(s) && !exists n :: 1 <= n <= 3 && GroupIs(Get(s, GroupKey), n)
    ensures r in {DashboardScreen, SystemScreen} ==> IsAdmin(s)
    ensures IsAuthenticated(s) && IsAdmin(s) && !GroupIs(Get(s, GroupKey), 1) && !GroupIs(Get(s, GroupKey), 3) ==>
              r == Show(choice)
  {
    if !IsAuthenticated(s) then LoginForm
    else
      var group := Get(s, GroupKey);
      var page := SelectedPage(IsAdmin(s), choice);
      if GroupIs(group, 1) then GroupBlocked
      else if GroupIs(group, 2) then Show(page)
      else if GroupIs(group, 3) then ExplainerPlaceholder
      else if IsAdmin(s) then Show(page)
      else UnknownGroup
  }

  /** After a successful admin login every page can be reached. */
  lemma AdminReachesEveryPage(s: Session, password: string, configured: Option<string>, uuid: string, now: int, choice: Page)
    requires password == AdminPassword(configured)
    ensures Route(AdminLogin(s, password, configured, uuid, now).1, choice) == Show(choice)
  {
  }

  /** After a successful code login the group alone decides the screen:
      group 1 is blocked, group 2 chats whatever page was asked for, group 3
      sees the placeholder. */
  lemma CodeLoginRoutesByGroup(s: Session, code: string, userId: string, now: int, choice: Page)
    requires ParseCode(code).Some?
    ensures var g := ParseCode(code).value.group;
            var r := Route(Login(s, code, userId, now).1, choice);
            (g == 1 ==> r == GroupBlocked) && (g == 2 ==> r == ChatScreen) && (g == 3 ==> r == ExplainerPlaceholder)
  {
    var parsed := ParseCode(code).value;
    StoredGroupRoutes(s, parsed, userId, now, choice);
  }

  lemma StoredGroupRoutes(s: Session, parsed: ParsedCode, userId: string, now: int, choice: Page)
    requires StartsWith(parsed.code, "G")
    ensures var g := parsed.group;
            var r := Route(Store(s, parsed, userId, now), choice);
            (g == 1 ==> r == GroupBlocked) && (g == 2 ==> r == ChatScreen) && (g == 3 ==> r == ExplainerPlaceholder)
  {
  }

  /** After a logout only the login form is shown. */
  lemma LogoutShowsLoginForm(s: Session, choice: Page)
    ensures Route(Logout(s), choice) == LoginForm
  {
  }
}
