/** The status page as it is served: its sensor part is read from the sensor table, slot by slot, as C
    strings. */
module StatusPage {
  import RoutesPage
  import Sensors

  /** What a C string function sees of a text: everything before the first NUL. */
  function CString(f: string): (t: string)
    ensures '\0' !in t && |t| <= |f|
  {
    if f == "" then ""
    else
      var t := CString(f[..|f| - 1]);
      if '\0' in f then t else f
  }

  lemma {:induction false} CStringStops(f: string, n: nat)
    requires n < |f| && f[n] == '\0' && '\0' !in f[..n]
    ensures CString(f) == f[..n]
  {
    var g := f[..|f| - 1];
    assert f[n] in f;
    if n < |g| {
      assert g[..n] == f[..n];
      CStringStops(g, n);
    } else {
      assert g == f[..n];
      NoNulIsWhole(g);
    }
  }

  lemma NoNulIsWhole(f: string)
    ensures CString(f) == f <==> '\0' !in f
  {}

  /** The fields as they appear on the page. */
  function Shown(fields: seq<string>): (ts: seq<string>)
    ensures |ts| == |fields| && RoutesPage.SensorsOk(ts) <== (forall f | f in fields :: |f| < Sensors.WIDTH)
  {
    seq(|fields|, k requires 0 <= k < |fields| => CString(fields[k]))
  }

  lemma {:induction false} CStringPrefix(f: string)
    ensures CString(f) <= f && (CString(f) == f || f[|CString(f)|] == '\0')
  {
    if f != "" {
      CStringPrefix(f[..|f| - 1]);
      NoNulIsWhole(f[..|f| - 1]);
    }
  }

  /** Each is shown up to its first NUL. */
  lemma ShownUpToNul(fields: seq<string>, k: nat)
    requires k < |fields|
    ensures var f, t := fields[k], Shown(fields)[k];
      '\0' !in t && t <= f && (t == f || f[|t|] == '\0')
  {
    CStringPrefix(fields[k]);
    hide CString;
  }

  /** sensors[k] given to "%s". */
  method SlotText(table: Sensors.Table, k: nat, ghost f: string) returns (t: string)
    requires table.Valid() && k < Sensors.MAX_SENSORS && table.Stores(k, f)
    ensures t == CString(f)
  {
    t := "";
    while table.sensors[k, |t|] != '\0'
      invariant |t| <= |f| && t == f[..|t|] && '\0' !in t
      decreases |f| - |t|
    {
      assert f[..|t| + 1] == f[..|t|] + [f[|t|]];
      t := t + [table.sensors[k, |t|]];
    }
    if |t| == |f| {
      assert f[..|f|] == f;
      NoNulIsWhole(f);
    } else {
      CStringStops(f, |t|);
    }
  }

  method Texts(table: Sensors.Table, ghost fields: seq<string>) returns (ss: seq<string>)
    requires table.Valid() && |fields| == table.sensorCount
    requires forall k | 0 <= k < |fields| :: table.Stores(k, fields[k])
    ensures ss == Shown(fields)
  {
    hide CString;
    ss := [];
    for k := 0 to table.sensorCount
      invariant ss == Shown(fields)[..k]
    {
      var t := SlotText(table, k, fields[k]);
      ss := ss + [t];
    }
  }

  lemma ShortFields(table: Sensors.Table, fields: seq<string>)
    requires table.Valid() && |fields| == table.sensorCount
    requires forall k | 0 <= k < |fields| :: table.Stores(k, fields[k])
    ensures RoutesPage.SensorsOk(Shown(fields))
  {
    assert forall f | f in fields :: |f| < Sensors.WIDTH;
  }

  /** Serves the page with the table as it is. */
  method Serve(page: RoutesPage.Page, table: Sensors.Table, ns: seq<seq<nat>>, rs: seq<RoutesPage.Route>,
               ghost fields: seq<string>)
    requires page.buf.Length == RoutesPage.SIZE && RoutesPage.Addresses(ns) && RoutesPage.RoutesOk(rs)
    requires table.Valid() && |fields| == table.sensorCount
    requires forall k | 0 <= k < |fields| :: table.Stores(k, fields[k])
    modifies page, page.buf
    ensures page.sent == old(page.sent) + RoutesPage.Sent(ns, rs, Shown(fields))
  {
    hide Shown, RoutesPage.Sent, RoutesPage.Addresses, RoutesPage.RoutesOk, RoutesPage.SensorsOk;
    var ss := Texts(table, fields);
    ShortFields(table, fields);
    page.GenerateRoutes(ns, rs, ss);
  }

  /** A message with sensor readings arrives, and the page is served: it shows the first four fields of the
      message, each up to its first NUL, provided these fit their slots. */
  method ServeReadings(page: RoutesPage.Page, table: Sensors.Table, data: string,
                       ns: seq<seq<nat>>, rs: seq<RoutesPage.Route>)
    returns (inside: bool)
    requires page.buf.Length == RoutesPage.SIZE && RoutesPage.Addresses(ns) && RoutesPage.RoutesOk(rs)
    requires table.Valid()
    modifies page, page.buf, table, table.sensors
    ensures inside <==> forall f | f in Sensors.Kept(data) :: |f| < Sensors.WIDTH
    ensures inside ==> page.sent == old(page.sent) + RoutesPage.Sent(ns, rs, Shown(Sensors.Kept(data)))
  {
    hide Sensors.Kept, RoutesPage.Sent, Shown;
    inside := table.SetSensors(data);
    if inside {
      Serve(page, table, ns, rs, Sensors.Kept(data));
    }
  }
}
