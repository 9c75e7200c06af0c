// The allow-all composer of the policy service: every block rule of a user
// is read for the ids it blocks (`extractBlocked*`), and the derived
// allow-all rule gets the traffic `not(<cat> or <app-type> or <app-id>)`
// built from the three unions (`buildAllowAllTrafficString`).
module AllowAll {

  import opened Wrappers
  import opened TrafficText
  import opened Entities

  /** The three id sets collected so far. */
  datatype Blocked = Blocked(cats: set<int>, types: set<int>, apps: set<int>)

  function Get(b: Blocked, d: Dimension): set<int>
  {
    match d
    case Category => b.cats
    case AppType => b.types
    case AppId => b.apps
  }

  /** One rule's contribution: allow-all rules add nothing; any other rule
      adds its three extractions, or fails when one of them does. */
  function AddRule(b: Blocked, p: Policy): Option<Blocked>
  {
    if p.isAllowAll then Some(b)
    else
      match (Extract(Category, p.traffic), Extract(AppType, p.traffic), Extract(AppId, p.traffic))
      case (Some(c), Some(t), Some(a)) => Some(Blocked(b.cats + c, b.types + t, b.apps + a))
      case _ => None
  }

  /** The sets after reading the rules in list order; `None` once a rule's
      traffic holds an id `Integer.parseInt` refuses. */
  function Scan(ps: seq<Policy>): Option<Blocked>
  {
    if ps == [] then Some(Blocked({}, {}, {}))
    else
      match Scan(ps[..|ps| - 1])
      case None => None
      case Some(b) => AddRule(b, ps[|ps| - 1])
  }

  /** `xs` lists every element of `s` exactly once. */
  predicate Enumerates(xs: seq<int>, s: set<int>)
  {
    Elems(xs) == s && forall i, j :: 0 <= i < j < |xs| ==> xs[i] != xs[j]
  }

  /** `t` is the allow-all traffic for the sets of `b`, with each set's ids
      in some order (the order a `HashSet` iterates in is not fixed). */
  ghost predicate AllowAllText(t: string, b: Blocked)
  {
    exists xs, ys, zs ::
      Enumerates(xs, b.cats) && Enumerates(ys, b.types) && Enumerates(zs, b.apps)
      && t == Compose(xs, ys, zs)
  }

  // ---------------------------------------------------------------------
  // The rules of one user in the local table, order-free

  /** Every non-allow-all rule of `u` has parsable ids in all three kinds. */
  ghost predicate RowsParse(rows: map<string, Policy>, u: Email)
  {
    forall id, d :: id in rows && rows[id].user == u && !rows[id].isAllowAll
      ==> Extract(d, rows[id].traffic).Some?
  }

  /** The union of the ids of kind `d` over the non-allow-all rules of `u`. */
  ghost function RowsBlocked(rows: map<string, Policy>, u: Email, d: Dimension): set<int>
  {
    set id, x | id in rows && rows[id].user == u && !rows[id].isAllowAll
      && Extract(d, rows[id].traffic).Some? && x in Extract(d, rows[id].traffic).value :: x
  }

  predicate Int32Set(s: set<int>)
  {
    forall v :: v in s ==> IsInt32(v)
  }

  predicate Int32Blocked(b: Blocked)
  {
    Int32Set(b.cats) && Int32Set(b.types) && Int32Set(b.apps)
  }

  ghost function RowsBlockedAll(rows: map<string, Policy>, u: Email): Blocked
  {
    Blocked(RowsBlocked(rows, u, Category), RowsBlocked(rows, u, AppType), RowsBlocked(rows, u, AppId))
  }

  // ---------------------------------------------------------------------
  // The methods

  /** `extractBlocked*`: adds to `acc` the ids of the first clause of kind
      `d` in `traffic`, or fails at the first piece that is not an int. */
  method ExtractBlocked(d: Dimension, traffic: string, acc: set<int>) returns (r: Option<set<int>>)
    ensures r == match Extract(d, traffic) case None => None case Some(s) => Some(acc + s)
  {
    var found := Find(Field(d), traffic);
    if found.None? {
      assert acc + {} == acc;
      return Some(acc);
    }
    var words := Split(found.value);
    var ids := acc;
    var i := 0;
    while i < |words|
      invariant 0 <= i <= |words|
      invariant ParseAll(words[..i]).Some? && ids == acc + ParseAll(words[..i]).value
    {
      var v := ParseInt(words[i]);
      if v.None? {
        ParseAllFailsAt(words, i);
        return None;
      }
      ParseAllStep(words, i);
      ids := ids + {v.value};
      i := i + 1;
    }
    assert words[..i] == words;
    r := Some(ids);
  }

  /** The ids of a set in the order a `HashSet` happens to yield them. */
  method Enumerate(s: set<int>) returns (xs: seq<int>)
    ensures Enumerates(xs, s)
  {
    var left := s;
    xs := [];
    while left != {}
      invariant left <= s
      invariant Elems(xs) == s - left
      invariant forall i, j :: 0 <= i < j < |xs| ==> xs[i] != xs[j]
      decreases |left|
    {
      NonEmpty(left);
      var x :| x in left;
      ElemsSnoc(xs, x);
      xs := xs + [x];
      left := left - {x};
    }
  }

  /** `buildAllowAllTrafficString`: the traffic of the allow-all rule for
      the rules `ps`, or `None` when some rule's ids do not parse. */
  method BuildAllowAllTrafficString(ps: seq<Policy>) returns (r: Option<string>)
    ensures r.None? <==> Scan(ps).None?
    ensures r.Some? ==> AllowAllText(r.value, Scan(ps).value)
  {
    var b := CollectBlocked(ps);
    if b.None? {
      return None;
    }
    var text := ComposeTraffic(b.value);
    r := Some(text);
  }

  /** The first half of `buildAllowAllTrafficString`: the three sets of
      ids, read rule by rule. */
  method CollectBlocked(ps: seq<Policy>) returns (r: Option<Blocked>)
    ensures r == Scan(ps)
  {
    var cats: set<int>, types: set<int>, apps: set<int> := {}, {}, {};
    var i := 0;
    while i < |ps|
      invariant 0 <= i <= |ps|
      invariant Scan(ps[..i]) == Some(Blocked(cats, types, apps))
    {
      ScanStep(ps, i, Blocked(cats, types, apps));
      if !ps[i].isAllowAll {
        var c := ExtractBlocked(Category, ps[i].traffic, cats);
        var t: Option<set<int>> := None;
        var a: Option<set<int>> := None;
        if c.Some? {
          t := ExtractBlocked(AppType, ps[i].traffic, types);
          if t.Some? {
            a := ExtractBlocked(AppId, ps[i].traffic, apps);
          }
        }
        if a.None? {
          ScanPrefixFails(ps, i + 1);
          return None;
        }
        cats, types, apps := c.value, t.value, a.value;
      }
      i := i + 1;
    }
    assert ps[..i] == ps;
    r := Some(Blocked(cats, types, apps));
  }

  /** The second half of `buildAllowAllTrafficString`: the text, with the
      sets walked in whatever order they yield. */
  method ComposeTraffic(b: Blocked) returns (text: string)
    ensures AllowAllText(text, b)
  {
    var xs := Enumerate(b.cats);
    var ys := Enumerate(b.types);
    var zs := Enumerate(b.apps);
    var joined, cs := Append("", [], b.cats != {}, Clause(Category, xs));
    joined, cs := Append(joined, cs, b.types != {}, Clause(AppType, ys));
    joined, cs := Append(joined, cs, b.apps != {}, Clause(AppId, zs));
    EmptyElems(xs);
    EmptyElems(ys);
    EmptyElems(zs);
    assert cs == ClausesFor(xs, ys, zs);
    if joined == "" {
      text := "";
    } else {
      text := "not(" + joined + ")";
    }
    assert text == Compose(xs, ys, zs);
  }

  /** One step of the `StringBuilder`: when `present`, append " or " unless
      the text is still empty, then the clause. */
  method Append(text: string, cs: seq<Clause>, present: bool, c: Clause) returns (text': string, cs': seq<Clause>)
    requires text == JoinOr(cs)
    ensures text' == JoinOr(cs') && (text' == "" <==> cs' == [])
    ensures cs' == cs + (if present then [c] else [])
  {
    JoinOrEmpty(cs);
    if present {
      text' := (if text != "" then text + " or " else text) + ClauseText(c);
      cs' := cs + [c];
      JoinOrSnoc(cs, c);
      JoinOrEmpty(cs');
    } else {
      text', cs' := text, cs;
    }
  }

  // ---------------------------------------------------------------------
  // Lemmas: the pieces

  lemma {:induction false} ParseAllSnoc(ws: seq<string>, w: string)
    ensures ParseAll(ws + [w]) ==
      match ParseAll(ws)
      case None => None
      case Some(s) => (match ParseInt(w) case None => None case Some(v) => Some(s + {v}))
  {
    if ws == [] {
      assert ws + [w] == [w];
      assert [w][1..] == [];
      match ParseInt(w)
      case None =>
      case Some(x) => assert {x} + {} == {} + {x};
    } else {
      assert (ws + [w])[0] == ws[0];
      assert (ws + [w])[1..] == ws[1..] + [w];
      ParseAllSnoc(ws[1..], w);
      match ParseInt(ws[0])
      case None =>
      case Some(v) =>
        match ParseAll(ws[1..])
        case None =>
        case Some(rest) =>
          match ParseInt(w)
          case None =>
          case Some(x) => assert {v} + (rest + {x}) == {v} + rest + {x};
    }
  }

  /** `ParseAllSnoc` for a prefix of `ws` and the word after it. */
  lemma ParseAllStep(ws: seq<string>, i: nat)
    requires i < |ws|
    ensures ParseAll(ws[..i + 1]) ==
      match ParseAll(ws[..i])
      case None => None
      case Some(s) => (match ParseInt(ws[i]) case None => None case Some(v) => Some(s + {v}))
  {
    assert ws[..i + 1] == ws[..i] + [ws[i]];
    ParseAllSnoc(ws[..i], ws[i]);
  }

  lemma {:induction false} ParseAllFailsAt(ws: seq<string>, i: nat)
    requires i < |ws| && ParseInt(ws[i]).None?
    ensures ParseAll(ws).None?
  {
    if i > 0 {
      ParseAllFailsAt(ws[1..], i - 1);
    }
  }

  /** One more rule of the scan, with the rule's step spelt out. */
  lemma ScanStep(ps: seq<Policy>, i: nat, b: Blocked)
    requires i < |ps| && Scan(ps[..i]) == Some(b)
    ensures ps[i].isAllowAll ==> Scan(ps[..i + 1]) == Some(b)
    ensures !ps[i].isAllowAll ==>
      Scan(ps[..i + 1]) ==
        if Extract(Category, ps[i].traffic).None? || Extract(AppType, ps[i].traffic).None?
           || Extract(AppId, ps[i].traffic).None? then None
        else Some(Blocked(b.cats + Extract(Category, ps[i].traffic).value,
                          b.types + Extract(AppType, ps[i].traffic).value,
                          b.apps + Extract(AppId, ps[i].traffic).value))
  {
    assert ps[..i + 1][..i] == ps[..i];
  }

  lemma {:induction false} ScanPrefixFails(ps: seq<Policy>, k: nat)
    requires k <= |ps| && Scan(ps[..k]).None?
    ensures Scan(ps).None?
  {
    if k < |ps| {
      assert ps[..|ps| - 1][..k] == ps[..k];
      ScanPrefixFails(ps[..|ps| - 1], k);
    } else {
      assert ps[..k] == ps;
    }
  }

  lemma NonEmpty(s: set<int>)
    requires s != {}
    ensures exists x :: x in s
  {
    if forall x :: x !in s {
      assert false;
    }
  }

  lemma ElemsSnoc(xs: seq<int>, x: int)
    ensures Elems(xs + [x]) == Elems(xs) + {x}
  {
    var ys := xs + [x];
    assert forall k :: 0 <= k < |xs| ==> ys[k] == xs[k];
    assert ys[|xs|] == x;
  }

  lemma EmptyElems(xs: seq<int>)
    ensures Elems(xs) == {} <==> xs == []
  {
    if xs != [] {
      assert xs[0] in Elems(xs);
    }
  }

  lemma ClauseTextNonEmpty(c: Clause)
    ensures ClauseText(c) != ""
  {
    assert |Header(c.dim)| > 0;
  }

  lemma JoinOrEmpty(cs: seq<Clause>)
    ensures JoinOr(cs) == "" <==> cs == []
  {
    if cs != [] {
      ClauseTextNonEmpty(cs[0]);
    }
  }

  /** The `StringBuilder` step agrees with `JoinOr` on the longer list. */
  lemma {:induction false} JoinOrSnoc(cs: seq<Clause>, c: Clause)
    ensures JoinOr(cs + [c]) == if cs == [] then ClauseText(c) else JoinOr(cs) + " or " + ClauseText(c)
  {
    if cs == [] {
      assert cs + [c] == [c];
    } else if |cs| == 1 {
      assert cs + [c] == [cs[0], c];
      assert [cs[0], c][1..] == [c];
    } else {
      assert (cs + [c])[1..] == cs[1..] + [c];
      JoinOrSnoc(cs[1..], c);
      Assoc(ClauseText(cs[0]) + " or ", JoinOr(cs[1..]) + " or ", ClauseText(c));
      Assoc(ClauseText(cs[0]) + " or ", JoinOr(cs[1..]), " or ");
    }
  }

  // ---------------------------------------------------------------------
  // Lemmas: what the scan computes

  /** A rule's contribution to the set of kind `d`. */
  lemma AddRuleGet(b: Blocked, p: Policy, d: Dimension)
    requires AddRule(b, p).Some?
    ensures !p.isAllowAll ==> Extract(d, p.traffic).Some?
    ensures Get(AddRule(b, p).value, d)
      == Get(b, d) + (if p.isAllowAll then {} else Extract(d, p.traffic).value)
  {
  }

  /** The composer fails exactly when some non-allow-all rule has an id
      that does not parse, in any of the three kinds. */
  lemma {:induction false} ScanFails(ps: seq<Policy>)
    ensures Scan(ps).None? <==>
      exists i, d :: 0 <= i < |ps| && !ps[i].isAllowAll && Extract(d, ps[i].traffic).None?
  {
    if ps != [] {
      var n := |ps| - 1;
      var init := ps[..n];
      ScanFails(init);
      assert forall i :: 0 <= i < n ==> init[i] == ps[i];
      if Scan(ps).None? {
        if Scan(init).Some? {
          var d :| Extract(d, ps[n].traffic).None?;
          assert !ps[n].isAllowAll && Extract(d, ps[n].traffic).None?;
        }
      } else {
        forall i, d | 0 <= i < |ps| && !ps[i].isAllowAll
          ensures Extract(d, ps[i].traffic).Some?
        {
          if i == n {
            AddRuleGet(Scan(init).value, ps[n], d);
          }
        }
      }
    }
  }

  /** Rule `p` blocks id `x` of kind `d`. */
  ghost predicate Contributes(p: Policy, d: Dimension, x: int)
  {
    !p.isAllowAll && Extract(d, p.traffic).Some? && x in Extract(d, p.traffic).value
  }

  /** The last rule's step of the scan. */
  lemma ScanLast(ps: seq<Policy>, d: Dimension, x: int)
    requires ps != [] && Scan(ps).Some?
    ensures Scan(ps[..|ps| - 1]).Some?
    ensures x in Get(Scan(ps).value, d) <==>
      x in Get(Scan(ps[..|ps| - 1]).value, d) || Contributes(ps[|ps| - 1], d, x)
  {
    var init := ps[..|ps| - 1];
    assert Scan(init).Some? && Scan(ps) == AddRule(Scan(init).value, ps[|ps| - 1]);
    AddRuleGet(Scan(init).value, ps[|ps| - 1], d);
  }

  /** Every collected id comes from some rule. */
  lemma {:induction false} ScanUnionSound(ps: seq<Policy>, d: Dimension, x: int) returns (i: nat)
    requires Scan(ps).Some? && x in Get(Scan(ps).value, d)
    ensures i < |ps| && Contributes(ps[i], d, x)
  {
    var n := |ps| - 1;
    ScanLast(ps, d, x);
    if Contributes(ps[n], d, x) {
      i := n;
    } else {
      i := ScanUnionSound(ps[..n], d, x);
      assert ps[..n][i] == ps[i];
    }
  }

  /** Every id a rule blocks is collected. */
  lemma {:induction false} ScanUnionComplete(ps: seq<Policy>, d: Dimension, x: int, i: nat)
    requires Scan(ps).Some? && i < |ps| && Contributes(ps[i], d, x)
    ensures x in Get(Scan(ps).value, d)
  {
    var init := ps[..|ps| - 1];
    ScanLast(ps, d, x);
    if i < |init| {
      assert init[i] == ps[i];
      ScanUnionComplete(init, d, x, i);
    }
  }

  /** Each set is the union of that kind's ids over the non-allow-all
      rules: allow-all rules contribute nothing. */
  lemma ScanUnion(ps: seq<Policy>, d: Dimension, x: int)
    requires Scan(ps).Some?
    ensures x in Get(Scan(ps).value, d) <==> exists i :: 0 <= i < |ps| && Contributes(ps[i], d, x)
  {
    if x in Get(Scan(ps).value, d) {
      var i := ScanUnionSound(ps, d, x);
    }
    if exists i :: 0 <= i < |ps| && Contributes(ps[i], d, x) {
      var i :| 0 <= i < |ps| && Contributes(ps[i], d, x);
      ScanUnionComplete(ps, d, x, i);
    }
  }

  lemma {:induction false} ParseAllInt32(ws: seq<string>)
    requires ParseAll(ws).Some?
    ensures Int32Set(ParseAll(ws).value)
  {
    if ws != [] {
      ParseAllInt32(ws[1..]);
    }
  }

  lemma ExtractInt32(d: Dimension, traffic: string)
    requires Extract(d, traffic).Some?
    ensures Int32Set(Extract(d, traffic).value)
  {
    match Find(Field(d), traffic)
    case None =>
    case Some(group) => ParseAllInt32(Split(group));
  }

  /** Every collected id is a 32-bit int, as `Integer.parseInt` gives. */
  lemma ScanInt32(ps: seq<Policy>)
    requires Scan(ps).Some?
    ensures Int32Blocked(Scan(ps).value)
  {
    forall d, x | x in Get(Scan(ps).value, d)
      ensures IsInt32(x)
    {
      ScanUnion(ps, d, x);
      var i :| 0 <= i < |ps| && !ps[i].isAllowAll
        && Extract(d, ps[i].traffic).Some? && x in Extract(d, ps[i].traffic).value;
      ExtractInt32(d, ps[i].traffic);
    }
    assert forall x :: x in Scan(ps).value.cats ==> x in Get(Scan(ps).value, Category);
    assert forall x :: x in Scan(ps).value.types ==> x in Get(Scan(ps).value, AppType);
    assert forall x :: x in Scan(ps).value.apps ==> x in Get(Scan(ps).value, AppId);
  }

  /** Read over a listing of the user's rows, the composer's result does
      not depend on the listing's order: it fails iff some rule of the user
      does not parse, and otherwise collects the unions over the rows. */
  lemma ScanRows(ps: seq<Policy>, rows: map<string, Policy>, u: Email)
    requires ListsRowsOf(ps, rows, u)
    ensures Scan(ps).None? <==> !RowsParse(rows, u)
    ensures Scan(ps).Some? ==> Scan(ps).value == RowsBlockedAll(rows, u)
  {
    ScanFails(ps);
    if !RowsParse(rows, u) {
      var id, d :| id in rows && rows[id].user == u && !rows[id].isAllowAll
        && Extract(d, rows[id].traffic).None?;
      assert id in OwnedBy(rows, u);
      var p :| p in ps && p.id == id;
      var i :| 0 <= i < |ps| && ps[i] == p;
      assert !ps[i].isAllowAll && Extract(d, ps[i].traffic).None?;
    }
    if Scan(ps).Some? {
      var b := Scan(ps).value;
      forall d | true
        ensures Get(b, d) == RowsBlocked(rows, u, d)
      {
        forall x | true
          ensures x in Get(b, d) <==> x in RowsBlocked(rows, u, d)
        {
          ScanUnion(ps, d, x);
          if x in RowsBlocked(rows, u, d) {
            var id :| id in rows && rows[id].user == u && !rows[id].isAllowAll
              && Extract(d, rows[id].traffic).Some? && x in Extract(d, rows[id].traffic).value;
            assert id in OwnedBy(rows, u);
            var p :| p in ps && p.id == id;
            var i :| 0 <= i < |ps| && ps[i] == p;
            assert !ps[i].isAllowAll && x in Extract(d, ps[i].traffic).value;
          }
        }
      }
      assert b.cats == Get(b, Category);
      assert b.types == Get(b, AppType);
      assert b.apps == Get(b, AppId);
    }
  }

  // ---------------------------------------------------------------------
  // Lemmas: what the allow-all traffic says

  lemma EnumeratesInt32(xs: seq<int>, s: set<int>)
    requires Enumerates(xs, s) && Int32Set(s)
    ensures AllInt32(xs)
  {
    assert forall i :: 0 <= i < |xs| ==> xs[i] in Elems(xs);
  }

  /** Reading the allow-all traffic back with the same extraction gives
      exactly the union it was built from, for every kind. */
  lemma AllowAllRoundTrip(t: string, b: Blocked, d: Dimension)
    requires AllowAllText(t, b) && Int32Blocked(b)
    ensures Extract(d, t) == Some(Get(b, d))
  {
    var xs, ys, zs :| Enumerates(xs, b.cats) && Enumerates(ys, b.types) && Enumerates(zs, b.apps)
      && t == Compose(xs, ys, zs);
    EnumeratesInt32(xs, b.cats);
    EnumeratesInt32(ys, b.types);
    EnumeratesInt32(zs, b.apps);
    ExtractCompose(xs, ys, zs, d);
  }

  /** The allow-all traffic is empty exactly when no rule blocks anything. */
  lemma AllowAllEmpty(t: string, b: Blocked)
    requires AllowAllText(t, b)
    ensures t == "" <==> b.cats == {} && b.types == {} && b.apps == {}
  {
    var xs, ys, zs :| Enumerates(xs, b.cats) && Enumerates(ys, b.types) && Enumerates(zs, b.apps)
      && t == Compose(xs, ys, zs);
    ComposeEmpty(xs, ys, zs);
    EmptyElems(xs);
    EmptyElems(ys);
    EmptyElems(zs);
  }

  /** A non-empty allow-all traffic is `not(...)` around the clauses for
      the non-empty sets, in category, app-type, app-id order. */
  lemma AllowAllShape(t: string, b: Blocked)
    requires AllowAllText(t, b) && t != ""
    ensures exists xs, ys, zs ::
      Elems(xs) == b.cats && Elems(ys) == b.types && Elems(zs) == b.apps
      && t == "not(" + JoinOr(ClausesFor(xs, ys, zs)) + ")"
      && ClausesFor(xs, ys, zs) ==
        (if b.cats == {} then [] else [Clause(Category, xs)])
        + (if b.types == {} then [] else [Clause(AppType, ys)])
        + (if b.apps == {} then [] else [Clause(AppId, zs)])
  {
    var xs, ys, zs :| Enumerates(xs, b.cats) && Enumerates(ys, b.types) && Enumerates(zs, b.apps)
      && t == Compose(xs, ys, zs);
    EmptyElems(xs);
    EmptyElems(ys);
    EmptyElems(zs);
    assert ClausesFor(xs, ys, zs) != [];
  }
}
