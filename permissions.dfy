/**
 * The permission resolver `getPermisos` of the main navigator.
 *
 * A user carries a list of permission records; each record belongs to one
 * client application (`id`) and lists route options (`url`), each with an
 * ordered list of named boolean flags. For one route the resolver writes the
 * title of every allowed flag into a local array AT THE FLAG'S OWN POSITION,
 * so the result is a sparse array: denied positions stay holes, its length is
 * one more than the highest allowed position, and a later matching option
 * overwrites an earlier one at the same position.
 *
 * The method `GetPermisos` runs the three nested `forEach` loops of `getPermisos`; it is
 * proved equal to `Resolve`, which is defined independently of the loops from
 * the list of writes they perform (`Writes`) and the array those writes leave
 * behind (`Table`). The lemmas then say what that array is in terms of the
 * permission records alone.
 */
module Permissions {
  import opened Wrappers

  /** One flag of a route option: its title and whether it is allowed. */
  datatype Flag = Flag(titulo: string, permitido: bool)

  /** One route option of a permission record. */
  datatype RouteOption = RouteOption(url: string, permisos: seq<Flag>)

  /** One permission record of the user, tied to a client application id. */
  datatype UserPermission = UserPermission(id: int, opciones: seq<RouteOption>)

  /** What `getPermisos` returns: the sparse array and its JavaScript length. */
  datatype Permisos = Permisos(permisos: seq<Option<string>>, cantidad: nat)

  /** One assignment `permisos[index] = titulo` made by the resolver. */
  datatype Write = Write(index: nat, titulo: string)

  /**
   * The JavaScript assignment `p[i] = t` on an array with holes: inside the
   * array it replaces slot `i`; past the end it grows the array to length
   * `i + 1`, leaving holes between the old end and `i`.
   */
  function Store(p: seq<Option<string>>, i: nat, t: string): (r: seq<Option<string>>)
    ensures |r| == if i < |p| then |p| else i + 1
    ensures r[i] == Some(t)
    ensures forall j :: 0 <= j < |p| && j != i ==> r[j] == p[j]
    ensures forall j :: |p| <= j < i ==> r[j] == None
  {
    if i < |p| then p[i := Some(t)] else p + Holes(i - |p|) + [Some(t)]
  }

  /** `n` holes: the slots a store past the end skips over. */
  function Holes(n: nat): (h: seq<Option<string>>)
    ensures |h| == n && forall j :: 0 <= j < n ==> h[j] == None
  {
    if n == 0 then [] else Holes(n - 1) + [None]
  }

  // ---------------------------------------------------------------------------
  // The writes the resolver performs, in iteration order
  // ---------------------------------------------------------------------------

  /** The writes made for one matching option: one per allowed flag, at its position. */
  function FlagWrites(flags: seq<Flag>): seq<Write>
  {
    if flags == [] then []
    else
      var k := |flags| - 1;
      FlagWrites(flags[..k]) + (if flags[k].permitido then [Write(k, flags[k].titulo)] else [])
  }

  /** The writes made for the options of one matching record. */
  function OptionWrites(opciones: seq<RouteOption>, ruta: string): seq<Write>
  {
    if opciones == [] then []
    else
      var o := opciones[|opciones| - 1];
      OptionWrites(opciones[..|opciones| - 1], ruta) + (if o.url == ruta then FlagWrites(o.permisos) else [])
  }

  /** The writes made for all permission records, in the order the loops visit them. */
  function Writes(permissions: seq<UserPermission>, ruta: string, appId: int): seq<Write>
  {
    if permissions == [] then []
    else
      var p := permissions[|permissions| - 1];
      Writes(permissions[..|permissions| - 1], ruta, appId)
        + (if p.id == appId then OptionWrites(p.opciones, ruta) else [])
  }

  // ---------------------------------------------------------------------------
  // The array a list of writes leaves behind
  // ---------------------------------------------------------------------------

  /** One more than the highest written position, or 0 when nothing is written. */
  function Extent(ws: seq<Write>): (n: nat)
    ensures forall k :: 0 <= k < |ws| ==> ws[k].index < n
    ensures n > 0 ==> exists k :: 0 <= k < |ws| && ws[k].index == n - 1
  {
    if ws == [] then 0
    else
      var w := ws[|ws| - 1];
      var m := Extent(ws[..|ws| - 1]);
      if m < w.index + 1 then w.index + 1 else m
  }

  /** The title last written at position `i`, or a hole when nothing was written there. */
  function Last(ws: seq<Write>, i: nat): (r: Option<string>)
    ensures r.None? <==> forall k :: 0 <= k < |ws| ==> ws[k].index != i
    ensures r.Some? ==> exists k :: 0 <= k < |ws| && ws[k] == Write(i, r.value)
                                    && forall k' :: k < k' < |ws| ==> ws[k'].index != i
  {
    if ws == [] then None
    else if ws[|ws| - 1].index == i then Some(ws[|ws| - 1].titulo)
    else Last(ws[..|ws| - 1], i)
  }

  /** The sparse array the writes leave, applied one after another to an empty array. */
  function Table(ws: seq<Write>): seq<Option<string>>
  {
    if ws == [] then []
    else
      var w := ws[|ws| - 1];
      Store(Table(ws[..|ws| - 1]), w.index, w.titulo)
  }

  /** The reference result of `getPermisos(permissions, ruta)` for application `appId`. */
  function Resolve(permissions: seq<UserPermission>, ruta: string, appId: int): Permisos
  {
    var p := Table(Writes(permissions, ruta, appId));
    Permisos(p, |p|)
  }

  /**
   * There is a record of application `appId` with an option for `ruta` whose
   * flag at position `i` is allowed and titled `t`.
   */
  ghost predicate Grants(permissions: seq<UserPermission>, ruta: string, appId: int, i: nat, t: string)
  {
    exists p, o :: p in permissions && p.id == appId && o in p.opciones && o.url == ruta
                   && i < |o.permisos| && o.permisos[i] == Flag(t, true)
  }

  /** Some matching option allows its flag at position `i`. */
  ghost predicate GrantedAt(permissions: seq<UserPermission>, ruta: string, appId: int, i: nat)
  {
    exists t :: Grants(permissions, ruta, appId, i, t)
  }

  /** Some allowed flag exists for `ruta` in the records of application `appId`. */
  ghost predicate HasAccess(permissions: seq<UserPermission>, ruta: string, appId: int)
  {
    exists i: nat :: GrantedAt(permissions, ruta, appId, i)
  }

  // ---------------------------------------------------------------------------
  // The resolver as `getPermisos` runs it
  // ---------------------------------------------------------------------------

  /**
   * `getPermisos`: three nested `forEach` loops over records, options and
   * flags; each allowed flag of a matching option is stored at its own
   * position. The two inner loops are the methods below.
   */
  method GetPermisos(permissions: seq<UserPermission>, ruta: string, appId: int) returns (r: Permisos)
    ensures r == Resolve(permissions, ruta, appId)
  {
    var permisos: seq<Option<string>> := [];
    var i := 0;
    while i < |permissions|
      invariant 0 <= i <= |permissions|
      invariant permisos == Table(Writes(permissions[..i], ruta, appId))
    {
      var permiso := permissions[i];
      ghost var done := Writes(permissions[..i], ruta, appId);
      assert permissions[..i + 1][..i] == permissions[..i];
      assert permissions[..i + 1][i] == permiso;
      if permiso.id == appId {
        permisos := StoreOptions(permisos, permiso.opciones, ruta, done);
      } else {
        assert done + [] == done;
      }
      i := i + 1;
    }
    assert permissions[..i] == permissions;
    r := Permisos(permisos, |permisos|);
  }

  /** The middle loop, over the options of one record of the application. */
  method StoreOptions(permisos: seq<Option<string>>, opciones: seq<RouteOption>, ruta: string, ghost done: seq<Write>)
    returns (r: seq<Option<string>>)
    requires permisos == Table(done)
    ensures r == Table(done + OptionWrites(opciones, ruta))
  {
    r := permisos;
    ghost var ws := done;  // the writes made so far
    var j := 0;
    assert opciones[..0] == [] && done + [] == done;
    while j < |opciones|
      invariant 0 <= j <= |opciones|
      invariant ws == done + OptionWrites(opciones[..j], ruta)
      invariant r == Table(ws)
    {
      var opcion := opciones[j];
      OptionWritesStep(opciones, j, ruta);
      if opcion.url == ruta {
        r := StoreFlags(r, opcion.permisos, ws);
        ConcatAssoc(done, OptionWrites(opciones[..j], ruta), FlagWrites(opcion.permisos));
        ws := ws + FlagWrites(opcion.permisos);
      } else {
        ConcatAssoc(done, OptionWrites(opciones[..j], ruta), []);
      }
      j := j + 1;
    }
    assert opciones[..j] == opciones;
  }

  /** The innermost loop, over the flags of one matching option. */
  method StoreFlags(permisos: seq<Option<string>>, flags: seq<Flag>, ghost done: seq<Write>)
    returns (r: seq<Option<string>>)
    requires permisos == Table(done)
    ensures r == Table(done + FlagWrites(flags))
  {
    r := permisos;
    ghost var ws := done;  // the writes made so far
    var k := 0;
    assert flags[..0] == [] && done + [] == done;
    while k < |flags|
      invariant 0 <= k <= |flags|
      invariant ws == done + FlagWrites(flags[..k])
      invariant r == Table(ws)
    {
      var opcPermiso := flags[k];
      FlagWritesStep(flags, k);
      if opcPermiso.permitido {
        TableSnoc(ws, Write(k, opcPermiso.titulo));
        ConcatAssoc(done, FlagWrites(flags[..k]), [Write(k, opcPermiso.titulo)]);
        r := Store(r, k, opcPermiso.titulo);
        ws := ws + [Write(k, opcPermiso.titulo)];
      } else {
        ConcatAssoc(done, FlagWrites(flags[..k]), []);
      }
      k := k + 1;
    }
    assert flags[..k] == flags;
  }

  // ---------------------------------------------------------------------------
  // Lemmas about the write lists
  // ---------------------------------------------------------------------------

  /** Visiting one more option appends that option's writes, if it is for the route. */
  lemma OptionWritesStep(opciones: seq<RouteOption>, j: nat, ruta: string)
    requires j < |opciones|
    ensures OptionWrites(opciones[..j + 1], ruta)
         == OptionWrites(opciones[..j], ruta) + (if opciones[j].url == ruta then FlagWrites(opciones[j].permisos) else [])
  {
    assert opciones[..j + 1][..j] == opciones[..j];
  }

  /** Sequence associativity and the empty suffix, handed to the loops and to `WritesAppend`. */
  lemma ConcatAssoc(a: seq<Write>, b: seq<Write>, c: seq<Write>)
    ensures a + (b + c) == a + b + c
    ensures a + [] == a
  {
  }

  /** Visiting one more flag appends its write, if it is allowed. */
  lemma FlagWritesStep(flags: seq<Flag>, k: nat)
    requires k < |flags|
    ensures FlagWrites(flags[..k + 1])
         == FlagWrites(flags[..k]) + (if flags[k].permitido then [Write(k, flags[k].titulo)] else [])
  {
    assert flags[..k + 1][..k] == flags[..k];
  }

  /** One more write is one more indexed assignment. */
  lemma TableSnoc(ws: seq<Write>, w: Write)
    ensures Table(ws + [w]) == Store(Table(ws), w.index, w.titulo)
  {
    assert (ws + [w])[..|ws|] == ws;
  }

  /**
   * The array left by the writes has `Extent(ws)` slots, and slot `i` holds
   * the title last written there, or a hole.
   */
  lemma {:induction false} TableSpec(ws: seq<Write>)
    ensures |Table(ws)| == Extent(ws)
    ensures forall i :: 0 <= i < |Table(ws)| ==> Table(ws)[i] == Last(ws, i)
  {
    if ws != [] {
      var n := |ws| - 1;
      var w := ws[n];
      var front := ws[..n];
      TableSpec(front);
      forall i | 0 <= i < |Table(ws)| ensures Table(ws)[i] == Last(ws, i) {
        if i != w.index && i >= |Table(front)| {
          assert Last(front, i) == None;
        }
      }
    }
  }

  /** Among two batches of writes, the later batch wins wherever it writes. */
  lemma {:induction false} LastAppend(ws1: seq<Write>, ws2: seq<Write>, i: nat)
    ensures Last(ws1 + ws2, i) == if Last(ws2, i).Some? then Last(ws2, i) else Last(ws1, i)
    decreases |ws2|
  {
    if ws2 == [] {
      assert ws1 + ws2 == ws1;
    } else {
      var n := |ws2| - 1;
      assert (ws1 + ws2)[..|ws1 + ws2| - 1] == ws1 + ws2[..n];
      LastAppend(ws1, ws2[..n], i);
    }
  }

  lemma {:induction false} FlagWritesSpec(flags: seq<Flag>, i: nat, t: string)
    ensures Write(i, t) in FlagWrites(flags) <==> i < |flags| && flags[i] == Flag(t, true)
  {
    if flags != [] {
      var k := |flags| - 1;
      FlagWritesSpec(flags[..k], i, t);
    }
  }

  lemma {:induction false} OptionWritesSpec(opciones: seq<RouteOption>, ruta: string, i: nat, t: string)
    ensures Write(i, t) in OptionWrites(opciones, ruta)
        <==> exists o :: o in opciones && o.url == ruta && i < |o.permisos| && o.permisos[i] == Flag(t, true)
  {
    if opciones != [] {
      var n := |opciones| - 1;
      var o := opciones[n];
      assert opciones == opciones[..n] + [o];
      OptionWritesSpec(opciones[..n], ruta, i, t);
      FlagWritesSpec(o.permisos, i, t);
    }
  }

  /** A write of `t` at `i` happens exactly when some matching flag grants it. */
  lemma {:induction false} WritesSpec(permissions: seq<UserPermission>, ruta: string, appId: int, i: nat, t: string)
    ensures Write(i, t) in Writes(permissions, ruta, appId) <==> Grants(permissions, ruta, appId, i, t)
  {
    if permissions != [] {
      var n := |permissions| - 1;
      var p := permissions[n];
      assert permissions == permissions[..n] + [p];
      WritesSpec(permissions[..n], ruta, appId, i, t);
      OptionWritesSpec(p.opciones, ruta, i, t);
      if Grants(permissions, ruta, appId, i, t) && !Grants(permissions[..n], ruta, appId, i, t) {
        var p', o :| p' in permissions && p'.id == appId && o in p'.opciones && o.url == ruta
                     && i < |o.permisos| && o.permisos[i] == Flag(t, true);
        assert p' == p;
      }
    }
  }

  lemma {:induction false} WritesAppend(ps1: seq<UserPermission>, ps2: seq<UserPermission>, ruta: string, appId: int)
    ensures Writes(ps1 + ps2, ruta, appId) == Writes(ps1, ruta, appId) + Writes(ps2, ruta, appId)
    decreases |ps2|
  {
    if ps2 == [] {
      assert ps1 + ps2 == ps1;
    } else {
      var n := |ps2| - 1;
      var p := ps2[n];
      assert (ps1 + ps2)[..|ps1 + ps2| - 1] == ps1 + ps2[..n];
      WritesAppend(ps1, ps2[..n], ruta, appId);
      ConcatAssoc(Writes(ps1, ruta, appId), Writes(ps2[..n], ruta, appId),
                  if p.id == appId then OptionWrites(p.opciones, ruta) else []);
    }
  }

  lemma {:induction false} OptionWritesAppend(os1: seq<RouteOption>, os2: seq<RouteOption>, ruta: string)
    ensures OptionWrites(os1 + os2, ruta) == OptionWrites(os1, ruta) + OptionWrites(os2, ruta)
    decreases |os2|
  {
    if os2 == [] {
      assert os1 + os2 == os1;
    } else {
      var n := |os2| - 1;
      var o := os2[n];
      assert (os1 + os2)[..|os1 + os2| - 1] == os1 + os2[..n];
      OptionWritesAppend(os1, os2[..n], ruta);
      ConcatAssoc(OptionWrites(os1, ruta), OptionWrites(os2[..n], ruta),
                  if o.url == ruta then FlagWrites(o.permisos) else []);
    }
  }

  // ---------------------------------------------------------------------------
  // What the resolver returns, in terms of the permission records
  // ---------------------------------------------------------------------------

  /** With no permission records, every route resolves to the empty array. */
  lemma NoRecordsNoPermisos(ruta: string, appId: int)
    ensures Resolve([], ruta, appId) == Permisos([], 0)
  {
  }

  /**
   * `cantidad` is the array's length and is one more than the highest
   * position granted for the route, or 0 when nothing is granted: it is not
   * the number of allowed flags.
   */
  lemma CantidadIsExtent(permissions: seq<UserPermission>, ruta: string, appId: int)
    ensures Resolve(permissions, ruta, appId).cantidad == |Resolve(permissions, ruta, appId).permisos|
    ensures forall i: nat, t :: Grants(permissions, ruta, appId, i, t) ==> i < Resolve(permissions, ruta, appId).cantidad
    ensures Resolve(permissions, ruta, appId).cantidad > 0
        ==> GrantedAt(permissions, ruta, appId, Resolve(permissions, ruta, appId).cantidad - 1)
    ensures Resolve(permissions, ruta, appId).cantidad > 0 <==> HasAccess(permissions, ruta, appId)
  {
    var ws := Writes(permissions, ruta, appId);
    var n := Resolve(permissions, ruta, appId).cantidad;
    TableSpec(ws);
    assert n == Extent(ws);
    forall i: nat, t | Grants(permissions, ruta, appId, i, t) ensures i < n {
      WritesSpec(permissions, ruta, appId, i, t);
      var k :| 0 <= k < |ws| && ws[k] == Write(i, t);
    }
    if n > 0 {
      var k :| 0 <= k < |ws| && ws[k].index == n - 1;
      WritesSpec(permissions, ruta, appId, ws[k].index, ws[k].titulo);
      assert Grants(permissions, ruta, appId, n - 1, ws[k].titulo);
    }
  }

  /**
   * Inside the array, a slot holds a title exactly when some matching option
   * allows the flag at that position, and the title is that flag's; every
   * other slot is a hole.
   */
  lemma EntriesAreGranted(permissions: seq<UserPermission>, ruta: string, appId: int, i: nat)
    requires i < Resolve(permissions, ruta, appId).cantidad
    ensures Resolve(permissions, ruta, appId).permisos[i].Some? <==> GrantedAt(permissions, ruta, appId, i)
    ensures Resolve(permissions, ruta, appId).permisos[i].Some?
        ==> Grants(permissions, ruta, appId, i, Resolve(permissions, ruta, appId).permisos[i].value)
  {
    var ws := Writes(permissions, ruta, appId);
    TableSpec(ws);
    var e := Resolve(permissions, ruta, appId).permisos[i];
    assert e == Last(ws, i);
    if e.Some? {
      WritesSpec(permissions, ruta, appId, i, e.value);
    }
    forall t | Grants(permissions, ruta, appId, i, t) ensures e.Some? {
      WritesSpec(permissions, ruta, appId, i, t);
      var k :| 0 <= k < |ws| && ws[k] == Write(i, t);
    }
  }

  /** When every flag of every matching option is denied, nothing is written. */
  lemma AllDeniedIsEmpty(permissions: seq<UserPermission>, ruta: string, appId: int)
    requires forall p, o, f ::
               (p in permissions && p.id == appId && o in p.opciones && o.url == ruta && f in o.permisos)
               ==> !f.permitido
    ensures Resolve(permissions, ruta, appId) == Permisos([], 0)
  {
    var ws := Writes(permissions, ruta, appId);
    if ws != [] {
      WritesSpec(permissions, ruta, appId, ws[0].index, ws[0].titulo);
      assert false;
    }
  }

  /** The records that can matter: those of `appId`, each cut down to its options for `ruta`. */
  function Relevant(permissions: seq<UserPermission>, ruta: string, appId: int): (rs: seq<UserPermission>)
    ensures forall p :: p in rs ==> p.id == appId && forall o :: o in p.opciones ==> o.url == ruta
    ensures forall p :: p in permissions && p.id == appId ==> UserPermission(p.id, MatchingOptions(p.opciones, ruta)) in rs
    ensures |rs| <= |permissions|
  {
    if permissions == [] then []
    else
      var p := permissions[|permissions| - 1];
      Relevant(permissions[..|permissions| - 1], ruta, appId)
        + (if p.id == appId then [UserPermission(p.id, MatchingOptions(p.opciones, ruta))] else [])
  }

  /** The options for `ruta`, in their original order. */
  function MatchingOptions(opciones: seq<RouteOption>, ruta: string): (ms: seq<RouteOption>)
    ensures forall o :: o in ms <==> o in opciones && o.url == ruta
    ensures |ms| <= |opciones|
  {
    if opciones == [] then []
    else
      var o := opciones[|opciones| - 1];
      MatchingOptions(opciones[..|opciones| - 1], ruta) + (if o.url == ruta then [o] else [])
  }

  /** Filtering keeps the options' order: the filter of `a + b` is the filter of `a`, then of `b`. */
  lemma {:induction false} MatchingOptionsAppend(a: seq<RouteOption>, b: seq<RouteOption>, ruta: string)
    ensures MatchingOptions(a + b, ruta) == MatchingOptions(a, ruta) + MatchingOptions(b, ruta)
    decreases |b|
  {
    if b == [] {
      assert a + b == a;
    } else {
      var n := |b| - 1;
      assert (a + b)[..|a + b| - 1] == a + b[..n];
      MatchingOptionsAppend(a, b[..n], ruta);
    }
  }

  /** Every kept record is an input record of the application, cut down to its options for the route. */
  lemma {:induction false} RelevantSound(permissions: seq<UserPermission>, ruta: string, appId: int, q: UserPermission)
    requires q in Relevant(permissions, ruta, appId)
    ensures exists p :: p in permissions && p.id == appId && q == UserPermission(p.id, MatchingOptions(p.opciones, ruta))
  {
    var n := |permissions| - 1;
    var p := permissions[n];
    assert permissions == permissions[..n] + [p];
    if q in Relevant(permissions[..n], ruta, appId) {
      RelevantSound(permissions[..n], ruta, appId, q);
    } else {
      assert p.id == appId && q == UserPermission(p.id, MatchingOptions(p.opciones, ruta));
    }
  }

  /** Filtering keeps the records' order: the filter of `a + b` is the filter of `a`, then of `b`. */
  lemma {:induction false} RelevantAppend(a: seq<UserPermission>, b: seq<UserPermission>, ruta: string, appId: int)
    ensures Relevant(a + b, ruta, appId) == Relevant(a, ruta, appId) + Relevant(b, ruta, appId)
    decreases |b|
  {
    if b == [] {
      assert a + b == a;
    } else {
      var n := |b| - 1;
      assert (a + b)[..|a + b| - 1] == a + b[..n];
      RelevantAppend(a, b[..n], ruta, appId);
    }
  }

  lemma {:induction false} MatchingOptionsWrites(opciones: seq<RouteOption>, ruta: string)
    ensures OptionWrites(MatchingOptions(opciones, ruta), ruta) == OptionWrites(opciones, ruta)
  {
    if opciones != [] {
      var n := |opciones| - 1;
      var o := opciones[n];
      MatchingOptionsWrites(opciones[..n], ruta);
      var front := MatchingOptions(opciones[..n], ruta);
      if o.url == ruta {
        OptionWritesAppend(front, [o], ruta);
        assert [o][..0] == [];
      } else {
        assert front + [] == front;
      }
    }
  }

  /** Dropping the records of other applications and the options of other routes changes nothing. */
  lemma {:induction false} IrrelevantIgnored(permissions: seq<UserPermission>, ruta: string, appId: int)
    ensures Resolve(Relevant(permissions, ruta, appId), ruta, appId) == Resolve(permissions, ruta, appId)
  {
    RelevantWrites(permissions, ruta, appId);
  }

  lemma {:induction false} RelevantWrites(permissions: seq<UserPermission>, ruta: string, appId: int)
    ensures Writes(Relevant(permissions, ruta, appId), ruta, appId) == Writes(permissions, ruta, appId)
  {
    if permissions != [] {
      var n := |permissions| - 1;
      var p := permissions[n];
      RelevantWrites(permissions[..n], ruta, appId);
      var front := Relevant(permissions[..n], ruta, appId);
      if p.id == appId {
        var q := UserPermission(p.id, MatchingOptions(p.opciones, ruta));
        WritesAppend(front, [q], ruta, appId);
        assert [q][..0] == [];
        MatchingOptionsWrites(p.opciones, ruta);
      } else {
        assert front + [] == front;
      }
    }
  }

  /** A record of another application, anywhere in the list, contributes nothing. */
  lemma OtherAppIgnored(ps1: seq<UserPermission>, p: UserPermission, ps2: seq<UserPermission>, ruta: string, appId: int)
    requires p.id != appId
    ensures Resolve(ps1 + [p] + ps2, ruta, appId) == Resolve(ps1 + ps2, ruta, appId)
  {
    WritesAppend(ps1 + [p], ps2, ruta, appId);
    WritesAppend(ps1, [p], ruta, appId);
    WritesAppend(ps1, ps2, ruta, appId);
    assert [p][..0] == [];
    assert Writes([p], ruta, appId) == [];
    assert Writes(ps1 + [p], ruta, appId) == Writes(ps1, ruta, appId);
    assert Writes(ps1 + [p] + ps2, ruta, appId) == Writes(ps1 + ps2, ruta, appId);
  }

  /**
   * Where later records allow a flag at position `i`, the title from the last
   * of them is the one that stays, whatever earlier records wrote there.
   */
  lemma LaterRecordsOverride(ps1: seq<UserPermission>, ps2: seq<UserPermission>, ruta: string, appId: int, i: nat)
    requires i < Resolve(ps2, ruta, appId).cantidad && Resolve(ps2, ruta, appId).permisos[i].Some?
    ensures i < Resolve(ps1 + ps2, ruta, appId).cantidad
    ensures Resolve(ps1 + ps2, ruta, appId).permisos[i] == Resolve(ps2, ruta, appId).permisos[i]
  {
    var ws1, ws2 := Writes(ps1, ruta, appId), Writes(ps2, ruta, appId);
    WritesAppend(ps1, ps2, ruta, appId);
    LaterWritesOverride(ws1, ws2, i);
  }

  /** The same, for two runs of options inside one record of the application. */
  lemma LaterOptionsOverride(os1: seq<RouteOption>, os2: seq<RouteOption>, ruta: string, appId: int, i: nat)
    requires i < Resolve([UserPermission(appId, os2)], ruta, appId).cantidad
    requires Resolve([UserPermission(appId, os2)], ruta, appId).permisos[i].Some?
    ensures i < Resolve([UserPermission(appId, os1 + os2)], ruta, appId).cantidad
    ensures Resolve([UserPermission(appId, os1 + os2)], ruta, appId).permisos[i]
         == Resolve([UserPermission(appId, os2)], ruta, appId).permisos[i]
  {
    assert [UserPermission(appId, os2)][..0] == [];
    assert [UserPermission(appId, os1 + os2)][..0] == [];
    assert Writes([UserPermission(appId, os2)], ruta, appId) == OptionWrites(os2, ruta);
    assert Writes([UserPermission(appId, os1 + os2)], ruta, appId) == OptionWrites(os1 + os2, ruta);
    OptionWritesAppend(os1, os2, ruta);
    LaterWritesOverride(OptionWrites(os1, ruta), OptionWrites(os2, ruta), i);
  }

  lemma LaterWritesOverride(ws1: seq<Write>, ws2: seq<Write>, i: nat)
    requires i < |Table(ws2)| && Table(ws2)[i].Some?
    ensures i < |Table(ws1 + ws2)| && Table(ws1 + ws2)[i] == Table(ws2)[i]
  {
    TableSpec(ws2);
    TableSpec(ws1 + ws2);
    var k :| 0 <= k < |ws2| && ws2[k].index == i;
    assert (ws1 + ws2)[|ws1| + k].index == i;
    LastAppend(ws1, ws2, i);
  }

  /** Reading slot `i` of a result the JavaScript way: past the end there is nothing. */
  function At(r: Permisos, i: nat): Option<string>
  {
    if i < |r.permisos| then r.permisos[i] else None
  }

  /** Two batches of writes leave an array as long as the longer of the two they leave alone. */
  lemma ExtentAppend(ws1: seq<Write>, ws2: seq<Write>)
    ensures Extent(ws1 + ws2) == if Extent(ws1) < Extent(ws2) then Extent(ws2) else Extent(ws1)
  {
    var e, e1, e2 := Extent(ws1 + ws2), Extent(ws1), Extent(ws2);
    if e > 0 {
      var k :| 0 <= k < |ws1 + ws2| && (ws1 + ws2)[k].index == e - 1;
      if k < |ws1| { assert ws1[k] == (ws1 + ws2)[k]; } else { assert ws2[k - |ws1|] == (ws1 + ws2)[k]; }
    }
    if e1 > 0 {
      var k :| 0 <= k < |ws1| && ws1[k].index == e1 - 1;
      assert (ws1 + ws2)[k] == ws1[k];
    }
    if e2 > 0 {
      var k :| 0 <= k < |ws2| && ws2[k].index == e2 - 1;
      assert (ws1 + ws2)[|ws1| + k] == ws2[k];
    }
  }

  /**
   * Resolving the records `ps1 + ps2`: the length is the larger of the two
   * parts' lengths, and every slot holds what the later part put there, or,
   * where the later part left nothing, what the earlier part put there. The
   * last matching record in iteration order wins.
   */
  lemma ResolveAppend(ps1: seq<UserPermission>, ps2: seq<UserPermission>, ruta: string, appId: int)
    ensures Resolve(ps1 + ps2, ruta, appId).cantidad
         == (if Resolve(ps1, ruta, appId).cantidad < Resolve(ps2, ruta, appId).cantidad
             then Resolve(ps2, ruta, appId).cantidad else Resolve(ps1, ruta, appId).cantidad)
    ensures forall i: nat ::
              At(Resolve(ps1 + ps2, ruta, appId), i)
              == (if At(Resolve(ps2, ruta, appId), i).Some? then At(Resolve(ps2, ruta, appId), i)
                  else At(Resolve(ps1, ruta, appId), i))
  {
    var ws1, ws2 := Writes(ps1, ruta, appId), Writes(ps2, ruta, appId);
    WritesAppend(ps1, ps2, ruta, appId);
    TableSpec(ws1);
    TableSpec(ws2);
    TableSpec(ws1 + ws2);
    ExtentAppend(ws1, ws2);
    forall i: nat ensures At(Resolve(ps1 + ps2, ruta, appId), i)
         == (if At(Resolve(ps2, ruta, appId), i).Some? then At(Resolve(ps2, ruta, appId), i)
             else At(Resolve(ps1, ruta, appId), i))
    {
      LastAppend(ws1, ws2, i);
      if i >= Extent(ws1) { assert Last(ws1, i) == None; }
      if i >= Extent(ws2) { assert Last(ws2, i) == None; }
    }
  }

  /**
   * The options of one record are visited as if they were split over two
   * consecutive records of the same application, so `ResolveAppend` also
   * says that a later option wins over an earlier one inside one record.
   */
  lemma SplitRecord(ps1: seq<UserPermission>, id: int, os1: seq<RouteOption>, os2: seq<RouteOption>,
                    ps2: seq<UserPermission>, ruta: string, appId: int)
    ensures Resolve(ps1 + [UserPermission(id, os1 + os2)] + ps2, ruta, appId)
         == Resolve(ps1 + [UserPermission(id, os1), UserPermission(id, os2)] + ps2, ruta, appId)
  {
    var joined, split := [UserPermission(id, os1 + os2)], [UserPermission(id, os1), UserPermission(id, os2)];
    WritesAppend(ps1 + joined, ps2, ruta, appId);
    WritesAppend(ps1, joined, ruta, appId);
    WritesAppend(ps1 + split, ps2, ruta, appId);
    WritesAppend(ps1, split, ruta, appId);
    assert joined[..0] == [] && split[..1] == [UserPermission(id, os1)] && split[..1][..0] == [];
    OptionWritesAppend(os1, os2, ruta);
    assert Writes(joined, ruta, appId) == Writes(split, ruta, appId);
  }

  /** Allowed flags at positions 0 and 2 leave a hole at 1, and a length of 3. */
  lemma ExampleWithHole(ruta: string, appId: int)
    ensures Resolve([UserPermission(appId, [RouteOption(ruta, [Flag("A", true), Flag("B", false), Flag("C", true)])])], ruta, appId)
         == Permisos([Some("A"), None, Some("C")], 3)
  {
    var flags := [Flag("A", true), Flag("B", false), Flag("C", true)];
    var option := RouteOption(ruta, flags);
    var record := UserPermission(appId, [option]);
    var ws := [Write(0, "A"), Write(2, "C")];
    assert FlagWrites(flags) == ws by {
      assert flags[..2][..1][..0] == [] && flags[..2][..1] == flags[..1] && flags[..3] == flags;
      assert FlagWrites(flags[..1]) == [Write(0, "A")];
      assert FlagWrites(flags[..2]) == [Write(0, "A")];
    }
    assert Writes([record], ruta, appId) == ws by {
      assert [option][..0] == [] && [record][..0] == [];
      assert OptionWrites([option], ruta) == ws;
    }
    assert Table(ws) == [Some("A"), None, Some("C")] by {
      assert ws[..1] == [Write(0, "A")] && ws[..1][..0] == [];
      assert Table(ws[..1]) == [Some("A")];
      assert Store([Some("A")], 2, "C") == [Some("A"), None, Some("C")];
    }
  }
}
