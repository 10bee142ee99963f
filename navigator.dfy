/**
 * The two decisions the main navigator takes from the user's permissions:
 * which screen the drawer opens on, and which menu entries the drawer shows.
 */
module Navigator {
  import opened Permissions

  /** The four destinations registered in the drawer. */
  datatype Screen = ApproveQuoteScreen | AcceptServiceScreen | RegisterHoursScreen | UnauthorizedScreen

  /** The route keys of the three functional screens (the application's route table). */
  datatype Routes = Routes(approveQuote: string, acceptService: string, registerHours: string)

  /** The route key of the fallback screen. */
  const UnauthorizedRoute: string := "/unauthorized"

  /** The route key under which a screen is registered. */
  function RouteKey(s: Screen, routes: Routes): string
  {
    match s
    case ApproveQuoteScreen => routes.approveQuote
    case AcceptServiceScreen => routes.acceptService
    case RegisterHoursScreen => routes.registerHours
    case UnauthorizedScreen => UnauthorizedRoute
  }

  /**
   * The initial route: the quote-approval screen when its route resolves to
   * a non-empty permission array, otherwise the service-acceptance screen
   * when its route does, otherwise the unauthorized screen. The contract
   * states the choice in terms of the permission records themselves.
   */
  function InitialRoute(permissions: seq<UserPermission>, appId: int, routes: Routes): (s: Screen)
    ensures s != RegisterHoursScreen
    ensures s == ApproveQuoteScreen <==> HasAccess(permissions, routes.approveQuote, appId)
    ensures s == AcceptServiceScreen
        <==> !HasAccess(permissions, routes.approveQuote, appId) && HasAccess(permissions, routes.acceptService, appId)
    ensures s == UnauthorizedScreen
        <==> !HasAccess(permissions, routes.approveQuote, appId) && !HasAccess(permissions, routes.acceptService, appId)
  {
    CantidadIsExtent(permissions, routes.approveQuote, appId);
    CantidadIsExtent(permissions, routes.acceptService, appId);
    if Resolve(permissions, routes.approveQuote, appId).cantidad > 0 then ApproveQuoteScreen
    else if Resolve(permissions, routes.acceptService, appId).cantidad > 0 then AcceptServiceScreen
    else UnauthorizedScreen
  }

  /** The initial route is always one of the registered destinations other than hours registration. */
  lemma InitialRouteRegistered(permissions: seq<UserPermission>, appId: int, routes: Routes)
    ensures RouteKey(InitialRoute(permissions, appId, routes), routes)
         in [routes.approveQuote, routes.acceptService, UnauthorizedRoute]
  {
  }

  // ---------------------------------------------------------------------------
  // The drawer menu
  // ---------------------------------------------------------------------------

  /** One option offered to the menu, with the permissions that apply to it. */
  datatype MenuEntry = MenuEntry(id: string, name: string, icon: string, url: string, permissions: seq<string>)

  /** One rendered menu item: its key, icon, title and navigation target. */
  datatype MenuItem = MenuItem(key: string, iconName: string, itemTitle: string, target: string)

  /** An entry is rendered only when some permission applies to it. */
  predicate Visible(o: MenuEntry)
  {
    |o.permissions| > 0
  }

  function Render(o: MenuEntry): MenuItem
  {
    MenuItem(o.id, o.icon, o.name, o.url)
  }

  /**
   * The rendered menu: each entry with permissions becomes one item, the
   * others render nothing. Every item comes from a visible entry, and every
   * visible entry has its item.
   */
  function MenuItems(opciones: seq<MenuEntry>): (items: seq<MenuItem>)
    ensures |items| <= |opciones|
    ensures forall x :: x in items ==> exists o :: o in opciones && Visible(o) && Render(o) == x
    ensures forall o :: o in opciones && Visible(o) ==> Render(o) in items
  {
    if opciones == [] then []
    else (if Visible(opciones[0]) then [Render(opciones[0])] else []) + MenuItems(opciones[1..])
  }

  /** Rendering keeps the entries' order: the menu of a concatenation is the concatenation of the menus. */
  lemma {:induction false} MenuItemsAppend(a: seq<MenuEntry>, b: seq<MenuEntry>)
    ensures MenuItems(a + b) == MenuItems(a) + MenuItems(b)
  {
    if a != [] {
      assert (a + b)[1..] == a[1..] + b;
      MenuItemsAppend(a[1..], b);
    } else {
      assert a + b == b;
    }
  }

  /** When every entry has permissions, the menu shows all of them, each in its own place. */
  lemma {:induction false} MenuItemsAllVisible(opciones: seq<MenuEntry>)
    requires forall k :: 0 <= k < |opciones| ==> Visible(opciones[k])
    ensures |MenuItems(opciones)| == |opciones|
    ensures forall k :: 0 <= k < |opciones| ==> MenuItems(opciones)[k] == Render(opciones[k])
  {
    if opciones != [] {
      MenuItemsAllVisible(opciones[1..]);
    }
  }

  /** When no entry has permissions, the menu is empty. */
  lemma {:induction false} MenuItemsNoneVisible(opciones: seq<MenuEntry>)
    requires forall k :: 0 <= k < |opciones| ==> !Visible(opciones[k])
    ensures MenuItems(opciones) == []
  {
    if opciones != [] {
      MenuItemsNoneVisible(opciones[1..]);
    }
  }
}
