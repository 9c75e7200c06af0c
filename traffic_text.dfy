// The traffic expressions of gateway block rules, as far as the allow-all
// composer reads and writes them: the three clause kinds, the regular
// expression search that pulls the id list out of a clause, Java's
// `String.split(" ")` and `Integer.parseInt`, and the serialiser that
// assembles `not(<clause> or <clause> or <clause>)`.
module TrafficText {

  import opened Wrappers

  /** The three kinds of ids a block rule can name. */
  datatype Dimension = Category | AppType | AppId

  const MinInt32: int := -0x8000_0000
  const MaxInt32: int := 0x7fff_ffff

  predicate IsInt32(n: int) { MinInt32 <= n <= MaxInt32 }

  predicate AllInt32(xs: seq<int>) { forall i :: 0 <= i < |xs| ==> IsInt32(xs[i]) }

  /** The literal part of the extraction pattern of a dimension, i.e. the
      pattern `<field> in \{([^}]+)}` with its escapes removed. */
  function Field(d: Dimension): string
  {
    match d
    case Category => "dns.content_category[*] in {"
    case AppType => "app.type.ids[*] in {"
    case AppId => "app.ids[*] in {"
  }

  /** The opening of a clause as the composer writes it. */
  function Header(d: Dimension): string
  {
    "any(" + Field(d)
  }

  // ---------------------------------------------------------------------
  // The regular-expression search `Matcher.find` for `<field>([^}]+)}`

  predicate StartsWith(s: string, p: string)
  {
    |p| <= |s| && s[..|p|] == p
  }

  /** Length of the longest prefix of `s` free of '}' (what the greedy
      `[^}]+` consumes). */
  function RunLength(s: string): (n: nat)
    ensures n <= |s|
    ensures forall i :: 0 <= i < n ==> s[i] != '}'
    ensures n < |s| ==> s[n] == '}'
  {
    if s == [] || s[0] == '}' then 0 else 1 + RunLength(s[1..])
  }

  /** The group captured by a match that starts at the first character of
      `s`, if the pattern matches there. */
  function MatchAt(p: string, s: string): (r: Option<string>)
    ensures r.Some? ==> StartsWith(s, p) && |r.value| > 0 && '}' !in r.value
    ensures r.Some? ==> |p| + |r.value| < |s| && s[|p| + |r.value|] == '}'
                        && s[|p|..|p| + |r.value|] == r.value
  {
    if StartsWith(s, p) then
      var n := RunLength(s[|p|..]);
      if 0 < n < |s| - |p| then Some(s[|p|..|p| + n]) else None
    else None
  }

  /** `Matcher.find` followed by `group(1)`: the leftmost match wins. */
  function Find(p: string, s: string): (r: Option<string>)
    decreases |s|
  {
    if MatchAt(p, s).Some? then MatchAt(p, s)
    else if s == [] then None
    else Find(p, s[1..])
  }

  // ---------------------------------------------------------------------
  // `String.split(" ")`

  /** Every piece between single spaces, empty pieces included. */
  function Pieces(s: string): (r: seq<string>)
    ensures |r| >= 1
  {
    if s == [] then [""]
    else
      var rest := Pieces(s[1..]);
      if s[0] == ' ' then [""] + rest else [[s[0]] + rest[0]] + rest[1..]
  }

  function DropTrailingEmpty(ws: seq<string>): (r: seq<string>)
    ensures |r| <= |ws| && r == ws[..|r|]
    ensures r == [] || r[|r| - 1] != ""
  {
    if ws == [] || ws[|ws| - 1] != "" then ws else DropTrailingEmpty(ws[..|ws| - 1])
  }

  /** Java's `split(" ")`: a string with no space is returned whole (even
      the empty string); otherwise trailing empty pieces are removed. */
  function Split(s: string): (r: seq<string>)
  {
    if ' ' !in s then [s] else DropTrailingEmpty(Pieces(s))
  }

  // ---------------------------------------------------------------------
  // `Integer.parseInt` and `String.valueOf`

  predicate IsDigit(c: char) { '0' <= c <= '9' }

  function DigitValue(c: char): nat
    requires IsDigit(c)
  {
    c as int - '0' as int
  }

  function DigitChar(n: nat): (c: char)
    requires n < 10
    ensures IsDigit(c) && DigitValue(c) == n
  {
    ('0' as int + n) as char
  }

  predicate AllDigits(s: string) { forall i :: 0 <= i < |s| ==> IsDigit(s[i]) }

  function DigitsValue(s: string): nat
    requires AllDigits(s)
  {
    if s == [] then 0 else 10 * DigitsValue(s[..|s| - 1]) + DigitValue(s[|s| - 1])
  }

  /** `Integer.parseInt(s)` in radix 10; `None` is a NumberFormatException. */
  function ParseInt(s: string): (r: Option<int>)
    ensures r.Some? ==> IsInt32(r.value)
    ensures r.Some? ==> s != [] && (s[0] == '-' || s[0] == '+' || IsDigit(s[0]))
  {
    if s == [] then None
    else
      var negative := s[0] == '-';
      var digits := if s[0] == '-' || s[0] == '+' then s[1..] else s;
      if digits == [] || !AllDigits(digits) then None
      else
        var v: int := if negative then -(DigitsValue(digits) as int) else DigitsValue(digits);
        if IsInt32(v) then Some(v) else None
  }

  /** `String.valueOf(n)` for a non-negative number. */
  function NatText(n: nat): (s: string)
    ensures |s| > 0 && AllDigits(s)
  {
    if n < 10 then [DigitChar(n)] else NatText(n / 10) + [DigitChar(n % 10)]
  }

  /** `String.valueOf(n)`. */
  function IntText(n: int): (s: string)
    ensures IdWord(s)
  {
    if n < 0 then "-" + NatText(-n) else NatText(n)
  }

  /** The characters ids are written with. */
  predicate IsIdChar(c: char) { IsDigit(c) || c == '-' || c == ' ' }

  /** A non-empty run of digits and minus signs: the text of one id. */
  predicate IdWord(w: string)
  {
    |w| > 0 && forall i :: 0 <= i < |w| ==> IsDigit(w[i]) || w[i] == '-'
  }

  /** `String.join(" ", ws)`. */
  function JoinWords(ws: seq<string>): string
  {
    if ws == [] then ""
    else if |ws| == 1 then ws[0]
    else ws[0] + " " + JoinWords(ws[1..])
  }

  function Texts(xs: seq<int>): (r: seq<string>)
    ensures |r| == |xs| && forall i :: 0 <= i < |xs| ==> r[i] == IntText(xs[i])
  {
    if xs == [] then [] else [IntText(xs[0])] + Texts(xs[1..])
  }

  /** The ids joined by single spaces, in the given order, as the
      composer's `Collectors.joining(" ")` writes them. */
  function JoinIds(xs: seq<int>): string
  {
    JoinWords(Texts(xs))
  }

  /** The ids parsed from the pieces, all of them or `None` at the first
      piece `Integer.parseInt` refuses. */
  function ParseAll(ws: seq<string>): (r: Option<set<int>>)
  {
    if ws == [] then Some({})
    else match ParseInt(ws[0])
      case None => None
      case Some(v) =>
        match ParseAll(ws[1..])
        case None => None
        case Some(rest) => Some({v} + rest)
  }

  function Elems(xs: seq<int>): set<int>
  {
    set i | 0 <= i < |xs| :: xs[i]
  }

  /** What one `extractBlocked*` call adds for dimension `d`: nothing when
      the clause is absent, the parsed ids of the first clause otherwise,
      `None` when a piece is not an int. */
  function Extract(d: Dimension, traffic: string): (r: Option<set<int>>)
  {
    match Find(Field(d), traffic)
    case None => Some({})
    case Some(group) => ParseAll(Split(group))
  }

  // ---------------------------------------------------------------------
  // The serialiser

  datatype Clause = Clause(dim: Dimension, ids: seq<int>)

  function ClauseText(c: Clause): string
  {
    Header(c.dim) + JoinIds(c.ids) + "})"
  }

  /** The clauses joined by " or ". */
  function JoinOr(cs: seq<Clause>): string
  {
    if cs == [] then ""
    else if |cs| == 1 then ClauseText(cs[0])
    else ClauseText(cs[0]) + " or " + JoinOr(cs[1..])
  }

  /** The clauses of the allow-all rule: one per non-empty id list, in
      category, app-type, app-id order. */
  function ClausesFor(cats: seq<int>, types: seq<int>, apps: seq<int>): seq<Clause>
  {
    (if cats == [] then [] else [Clause(Category, cats)])
    + (if types == [] then [] else [Clause(AppType, types)])
    + (if apps == [] then [] else [Clause(AppId, apps)])
  }

  /** The allow-all traffic for the given enumerations of the three id sets. */
  function Compose(cats: seq<int>, types: seq<int>, apps: seq<int>): string
  {
    var cs := ClausesFor(cats, types, apps);
    if cs == [] then "" else "not(" + JoinOr(cs) + ")"
  }

  function Pick(d: Dimension, cats: seq<int>, types: seq<int>, apps: seq<int>): seq<int>
  {
    match d
    case Category => cats
    case AppType => types
    case AppId => apps
  }

  /** The traffic rule of the default block policy every new user gets. */
  const DefaultTraffic: string := "any(dns.content_category[*] in {2 67 125 133 8 99})"

  // =====================================================================
  // Lemmas: the search

  /** `Find` returns the group of the leftmost position where the pattern
      matches, and `None` exactly when it matches nowhere. */
  lemma {:induction false} FindIsLeftmost(p: string, s: string)
    ensures Find(p, s).None? <==> forall j :: 0 <= j <= |s| ==> MatchAt(p, s[j..]).None?
    ensures Find(p, s).Some? ==>
      exists j :: 0 <= j <= |s| && MatchAt(p, s[j..]) == Find(p, s)
                  && forall i :: 0 <= i < j ==> MatchAt(p, s[i..]).None?
    decreases |s|
  {
    assert s[0..] == s;
    if MatchAt(p, s).Some? {
    } else if s == [] {
    } else {
      FindIsLeftmost(p, s[1..]);
      forall j | 1 <= j <= |s|
        ensures s[j..] == s[1..][j - 1..]
      {
      }
      if Find(p, s).None? {
        forall j | 0 <= j <= |s|
          ensures MatchAt(p, s[j..]).None?
        {
          if j > 0 {
            assert MatchAt(p, s[1..][j - 1..]).None?;
          }
        }
      } else {
        var k :| 0 <= k <= |s[1..]| && MatchAt(p, s[1..][k..]) == Find(p, s[1..])
                 && forall i :: 0 <= i < k ==> MatchAt(p, s[1..][i..]).None?;
        forall i | 0 <= i < k + 1
          ensures MatchAt(p, s[i..]).None?
        {
          if i > 0 {
            assert MatchAt(p, s[1..][i - 1..]).None?;
          }
        }
        assert MatchAt(p, s[k + 1..]) == Find(p, s);
      }
      if forall j :: 0 <= j <= |s| ==> MatchAt(p, s[j..]).None? {
        forall j | 0 <= j <= |s[1..]|
          ensures MatchAt(p, s[1..][j..]).None?
        {
          assert s[1..][j..] == s[j + 1..];
        }
      }
    }
  }

  /** No match can start inside a prefix that lacks the pattern's first
      character, so the search carries on behind it. */
  lemma {:induction false} SkipAbsent(p: string, x: string, rest: string)
    requires |p| > 0 && p[0] !in x
    ensures Find(p, x + rest) == Find(p, rest)
    decreases |x|
  {
    if x == [] {
      assert x + rest == rest;
    } else {
      assert (x + rest)[0] == x[0];
      assert !StartsWith(x + rest, p);
      assert (x + rest)[1..] == x[1..] + rest;
      SkipAbsent(p, x[1..], rest);
    }
  }

  /** A position where the text differs from the pattern within the
      pattern's length is not a match start. */
  lemma SkipHead(p: string, s: string, k: nat)
    requires k < |p| && k < |s| && s[k] != p[k]
    ensures Find(p, s) == Find(p, s[1..])
  {
    assert !StartsWith(s, p) by {
      if |p| <= |s| {
        assert s[..|p|][k] == s[k];
      }
    }
  }

  lemma {:induction false} RunLengthOf(a: string, b: string)
    requires '}' !in a && |b| > 0 && b[0] == '}'
    ensures RunLength(a + b) == |a|
    decreases |a|
  {
    if a == [] {
      assert a + b == b;
    } else {
      assert (a + b)[0] == a[0];
      assert (a + b)[1..] == a[1..] + b;
      RunLengthOf(a[1..], b);
    }
  }

  /** The pattern matches at the start of `field + group + "}..."`. */
  lemma MatchHere(p: string, g: string, rest: string)
    requires |g| > 0 && '}' !in g && |rest| > 0 && rest[0] == '}'
    ensures Find(p, p + g + rest) == Some(g)
  {
    var s := p + g + rest;
    assert s[..|p|] == p;
    assert s[|p|..] == g + rest;
    RunLengthOf(g, rest);
    assert s[|p|..|p| + |g|] == g;
  }

  /** A piece that starts with a character where the text then departs
      from the pattern, and holds no other start character, holds no match. */
  lemma SkipLead(p: string, c: char, y: string, k: nat, rest: string)
    requires 0 < k < |p| && k - 1 < |y| && y[k - 1] != p[k] && p[0] !in y
    ensures Find(p, [c] + y + rest) == Find(p, rest)
  {
    var s := [c] + (y + rest);
    Assoc([c], y, rest);
    assert s[k] == y[k - 1];
    SkipHead(p, s, k);
    assert s[1..] == y + rest;
    SkipAbsent(p, y, rest);
  }

  /** The first characters of the patterns, which is all the skipping
      lemmas need to know of them. */
  lemma FieldLetters(d: Dimension)
    ensures |Field(d)| > 4
    ensures d == Category ==> Field(d)[0] == 'd' && Field(d)[1] == 'n'
    ensures d != Category ==> Field(d)[0] == 'a' && Field(d)[1] == 'p'
    ensures d == AppType ==> Field(d)[4] == 't'
    ensures d == AppId ==> Field(d)[4] == 'i'
  {
  }

  lemma AnySkip(p: string, rest: string)
    requires |p| > 1 && (p[0] == 'd' || (p[0] == 'a' && p[1] == 'p'))
    ensures Find(p, "any(" + rest) == Find(p, rest)
  {
    if p[0] == 'd' {
      SkipAbsent(p, "any(", rest);
    } else {
      assert "any(" == "a" + "ny(";
      SkipLead(p, 'a', "ny(", 1, rest);
    }
  }

  /** `content_c[a]tegory`: the only 'a' of the category field. */
  lemma CategoryFieldSkip(p: string, rest: string)
    requires |p| > 1 && p[0] == 'a' && p[1] == 'p'
    ensures Find(p, Field(Category) + rest) == Find(p, rest)
  {
    var x, y := "dns.content_c", "tegory[*] in {";
    assert Field(Category) == x + ("a" + y);
    Assoc(x, "a" + y, rest);
    SkipAbsent(p, x, "a" + y + rest);
    SkipLead(p, 'a', y, 1, rest);
  }

  /** `app.type.i[d]s[*] in {`: its only 'd' is followed by 's'. */
  lemma AppTypeSkipCategory(p: string, rest: string)
    requires |p| > 1 && p[0] == 'd' && p[1] == 'n'
    ensures Find(p, Field(AppType) + rest) == Find(p, rest)
  {
    var x, y := "app.type.i", "s[*] in {";
    assert Field(AppType) == x + ("d" + y);
    Assoc(x, "d" + y, rest);
    SkipAbsent(p, x, "d" + y + rest);
    SkipLead(p, 'd', y, 1, rest);
  }

  /** `app.i[d]s[*] in {`: its only 'd' is followed by 's'. */
  lemma AppIdSkipCategory(p: string, rest: string)
    requires |p| > 1 && p[0] == 'd' && p[1] == 'n'
    ensures Find(p, Field(AppId) + rest) == Find(p, rest)
  {
    var x, y := "app.i", "s[*] in {";
    assert Field(AppId) == x + ("d" + y);
    Assoc(x, "d" + y, rest);
    SkipAbsent(p, x, "d" + y + rest);
    SkipLead(p, 'd', y, 1, rest);
  }

  /** `app.type` parts from `app.ids` at its fifth character. */
  lemma AppTypeSkipApp(p: string, rest: string)
    requires |p| > 4 && p[0] == 'a' && p[4] != 't'
    ensures Find(p, Field(AppType) + rest) == Find(p, rest)
  {
    assert Field(AppType) == "a" + "pp.type.ids[*] in {";
    SkipLead(p, 'a', "pp.type.ids[*] in {", 4, rest);
  }

  /** `app.ids` parts from `app.type` at its fifth character. */
  lemma AppIdSkipApp(p: string, rest: string)
    requires |p| > 4 && p[0] == 'a' && p[4] != 'i'
    ensures Find(p, Field(AppId) + rest) == Find(p, rest)
  {
    assert Field(AppId) == "a" + "pp.ids[*] in {";
    SkipLead(p, 'a', "pp.ids[*] in {", 4, rest);
  }

  /** The field of one dimension holds no match of another dimension's
      pattern. */
  lemma FieldSkip(k: Dimension, d: Dimension, rest: string)
    requires k != d
    ensures Find(Field(d), Field(k) + rest) == Find(Field(d), rest)
  {
    FieldLetters(d);
    match (k, d)
    case (Category, _) => CategoryFieldSkip(Field(d), rest);
    case (AppType, Category) => AppTypeSkipCategory(Field(d), rest);
    case (AppId, Category) => AppIdSkipCategory(Field(d), rest);
    case (AppType, _) => AppTypeSkipApp(Field(d), rest);
    case (AppId, _) => AppIdSkipApp(Field(d), rest);
  }

  // =====================================================================
  // Lemmas: numbers

  lemma {:induction false} NatTextValue(n: nat)
    ensures DigitsValue(NatText(n)) == n
  {
    if n >= 10 {
      NatTextValue(n / 10);
      var s := NatText(n);
      assert s[..|s| - 1] == NatText(n / 10);
    }
  }

  lemma ParseNatText(n: nat)
    requires n <= MaxInt32
    ensures ParseInt(NatText(n)) == Some(n)
  {
    var s := NatText(n);
    assert IsDigit(s[0]);
    NatTextValue(n);
  }

  lemma ParseNegativeText(m: nat)
    requires 0 < m <= -MinInt32
    ensures ParseInt("-" + NatText(m)) == Some(-(m as int))
  {
    var s := "-" + NatText(m);
    assert s[0] == '-';
    assert s[1..] == NatText(m);
    NatTextValue(m);
  }

  /** `Integer.parseInt(String.valueOf(n)) == n` for every Java int. */
  lemma ParseIntText(n: int)
    requires IsInt32(n)
    ensures ParseInt(IntText(n)) == Some(n)
  {
    if n < 0 {
      ParseNegativeText(-n);
    } else {
      ParseNatText(n);
    }
  }

  lemma {:induction false} JoinWordsChars(ws: seq<string>)
    requires forall i :: 0 <= i < |ws| ==> IdWord(ws[i])
    ensures forall c :: c in JoinWords(ws) ==> IsIdChar(c)
  {
    if |ws| == 1 {
      assert IdWord(ws[0]);
    } else if |ws| > 1 {
      JoinWordsChars(ws[1..]);
      assert IdWord(ws[0]);
      Assoc(ws[0], " ", JoinWords(ws[1..]));
    }
  }

  lemma JoinIdsChars(xs: seq<int>)
    ensures forall c :: c in JoinIds(xs) ==> IsIdChar(c)
  {
    JoinWordsChars(Texts(xs));
  }

  lemma {:induction false} PiecesAppend(a: string, b: string)
    requires ' ' !in a
    ensures Pieces(a + " " + b) == [a] + Pieces(b)
    decreases |a|
  {
    if a == [] {
      assert a + " " + b == [' '] + b;
      assert ([' '] + b)[1..] == b;
    } else {
      PiecesAppend(a[1..], b);
      assert (a + " " + b)[1..] == a[1..] + " " + b;
      assert [a[0]] + a[1..] == a;
    }
  }

  lemma {:induction false} PiecesNoSpace(a: string)
    requires ' ' !in a
    ensures Pieces(a) == [a]
    decreases |a|
  {
    if a != [] {
      PiecesNoSpace(a[1..]);
      assert [a[0]] + a[1..] == a;
    }
  }

  lemma NoSpace(w: string)
    requires IdWord(w)
    ensures ' ' !in w
  {
    assert forall i :: 0 <= i < |w| ==> w[i] != ' ';
  }

  lemma {:induction false} PiecesJoin(ws: seq<string>)
    requires ws != [] && forall i :: 0 <= i < |ws| ==> IdWord(ws[i])
    ensures Pieces(JoinWords(ws)) == ws
  {
    NoSpace(ws[0]);
    if |ws| == 1 {
      PiecesNoSpace(ws[0]);
    } else {
      PiecesJoin(ws[1..]);
      PiecesAppend(ws[0], JoinWords(ws[1..]));
    }
  }

  /** Splitting words joined by single spaces gives the words back. */
  lemma SplitJoinWords(ws: seq<string>)
    requires ws != [] && forall i :: 0 <= i < |ws| ==> IdWord(ws[i])
    ensures Split(JoinWords(ws)) == ws
  {
    PiecesJoin(ws);
    if |ws| == 1 {
      NoSpace(ws[0]);
      PiecesNoSpace(ws[0]);
    }
    assert IdWord(ws[|ws| - 1]);
  }

  lemma SplitJoin(xs: seq<int>)
    requires xs != []
    ensures Split(JoinIds(xs)) == Texts(xs)
  {
    SplitJoinWords(Texts(xs));
  }

  lemma {:induction false} ParseAllTexts(xs: seq<int>)
    requires AllInt32(xs)
    ensures ParseAll(Texts(xs)) == Some(Elems(xs))
  {
    if xs != [] {
      ParseIntText(xs[0]);
      ParseAllTexts(xs[1..]);
      assert Texts(xs)[1..] == Texts(xs[1..]);
      assert Elems(xs) == {xs[0]} + Elems(xs[1..]) by {
        forall x | x in Elems(xs) ensures x in {xs[0]} + Elems(xs[1..]) {
          var i :| 0 <= i < |xs| && xs[i] == x;
          if i > 0 { assert xs[1..][i - 1] == x; }
        }
        forall x | x in Elems(xs[1..]) ensures x in Elems(xs) {
          var i :| 0 <= i < |xs[1..]| && xs[1..][i] == x;
          assert xs[i + 1] == x;
        }
        assert xs[0] in Elems(xs);
      }
    } else {
      assert Elems(xs) == {};
    }
  }

  // =====================================================================
  // Lemmas: the round trip

  /** A clause of another dimension holds no match for `d`. */
  lemma Assoc(a: string, b: string, c: string)
    ensures a + b + c == a + (b + c)
  {
  }

  /** The text of a clause followed by `rest`, regrouped from the right. */
  lemma ClauseParts(c: Clause, rest: string)
    ensures ClauseText(c) + rest == "any(" + (Field(c.dim) + (JoinIds(c.ids) + ("})" + rest)))
  {
    var h, f, j, z := "any(", Field(c.dim), JoinIds(c.ids), "})";
    Assoc(h + f + j, z, rest);
    Assoc(h + f, j, z + rest);
    Assoc(h, f, j + (z + rest));
  }

  lemma ClauseSkip(c: Clause, d: Dimension, rest: string)
    requires c.dim != d
    ensures Find(Field(d), ClauseText(c) + rest) == Find(Field(d), rest)
  {
    var p, j := Field(d), JoinIds(c.ids);
    ClauseParts(c, rest);
    FieldLetters(d);
    AnySkip(p, Field(c.dim) + (j + ("})" + rest)));
    FieldSkip(c.dim, d, j + ("})" + rest));
    JoinIdsChars(c.ids);
    SkipAbsent(p, j, "})" + rest);
    SkipAbsent(p, "})", rest);
  }

  /** A clause of dimension `d` yields its id list as the group. */
  lemma ClauseMatch(c: Clause, rest: string)
    requires c.ids != []
    ensures Find(Field(c.dim), ClauseText(c) + rest) == Some(JoinIds(c.ids))
  {
    var p, g := Field(c.dim), JoinIds(c.ids);
    JoinIdsChars(c.ids);
    ClauseParts(c, rest);
    FieldLetters(c.dim);
    AnySkip(p, p + (g + ("})" + rest)));
    Assoc(p, g, "})" + rest);
    MatchHere(p, g, "})" + rest);
  }

  /** The first clause of dimension `d`, if any. */
  function FirstOf(cs: seq<Clause>, d: Dimension): Option<seq<int>>
  {
    if cs == [] then None
    else if cs[0].dim == d then Some(cs[0].ids)
    else FirstOf(cs[1..], d)
  }

  lemma FindEmpty(p: string)
    requires |p| > 0
    ensures Find(p, []) == None
  {
  }

  /** The joined list of at least two clauses, regrouped. */
  lemma JoinOrParts(cs: seq<Clause>, rest: string)
    requires |cs| > 1
    ensures JoinOr(cs) + rest == ClauseText(cs[0]) + (" or " + (JoinOr(cs[1..]) + rest))
  {
    var c, o, t := ClauseText(cs[0]), " or ", JoinOr(cs[1..]);
    Assoc(c + o, t, rest);
    Assoc(c, o, t + rest);
  }

  /** Nothing in `rest` can start a match. */
  lemma RestNone(d: Dimension, rest: string)
    requires Field(d)[0] !in rest
    ensures Find(Field(d), rest) == None
  {
    FieldLetters(d);
    SkipAbsent(Field(d), rest, []);
    assert rest + [] == rest;
    FindEmpty(Field(d));
  }

  /** A leading clause of another dimension and its " or " are passed over. */
  lemma JoinOrSkipFirst(cs: seq<Clause>, d: Dimension, rest: string)
    requires |cs| > 1 && cs[0].dim != d
    ensures Find(Field(d), JoinOr(cs) + rest) == Find(Field(d), JoinOr(cs[1..]) + rest)
  {
    var tail := JoinOr(cs[1..]) + rest;
    JoinOrParts(cs, rest);
    ClauseSkip(cs[0], d, " or " + tail);
    FieldLetters(d);
    SkipAbsent(Field(d), " or ", tail);
  }

  /** In a joined list of clauses only the first clause of a dimension is
      read; without one the search runs on into what follows. */
  lemma {:induction false} JoinOrFind(cs: seq<Clause>, d: Dimension, rest: string)
    requires forall i :: 0 <= i < |cs| ==> cs[i].ids != []
    requires Field(d)[0] !in rest
    ensures Find(Field(d), JoinOr(cs) + rest) ==
            match FirstOf(cs, d)
            case None => None
            case Some(ids) => Some(JoinIds(ids))
  {
    if cs == [] {
      assert JoinOr(cs) + rest == rest;
      RestNone(d, rest);
    } else if cs[0].dim == d {
      if |cs| == 1 {
        ClauseMatch(cs[0], rest);
      } else {
        JoinOrParts(cs, rest);
        ClauseMatch(cs[0], " or " + (JoinOr(cs[1..]) + rest));
      }
    } else if |cs| == 1 {
      ClauseSkip(cs[0], d, rest);
      RestNone(d, rest);
    } else {
      JoinOrSkipFirst(cs, d, rest);
      JoinOrFind(cs[1..], d, rest);
    }
  }

  lemma FirstOfClauses(cats: seq<int>, types: seq<int>, apps: seq<int>, d: Dimension)
    ensures FirstOf(ClausesFor(cats, types, apps), d) ==
            (if Pick(d, cats, types, apps) == [] then None else Some(Pick(d, cats, types, apps)))
  {
    var c := if cats == [] then [] else [Clause(Category, cats)];
    var t := if types == [] then [] else [Clause(AppType, types)];
    var a := if apps == [] then [] else [Clause(AppId, apps)];
    assert ClausesFor(cats, types, apps) == c + (t + a);
    assert FirstOf(a, d) == (if apps != [] && d == AppId then Some(apps) else None);
    if types != [] {
      assert (t + a)[0] == Clause(AppType, types) && (t + a)[1..] == a;
    } else {
      assert t + a == a;
    }
    assert FirstOf(t + a, d) == (if types != [] && d == AppType then Some(types) else FirstOf(a, d));
    if cats != [] {
      assert (c + (t + a))[0] == Clause(Category, cats) && (c + (t + a))[1..] == t + a;
    } else {
      assert c + (t + a) == t + a;
    }
  }

  /** The search for `d` in the allow-all traffic finds the id list of
      the `d` clause, or nothing when that list is empty. */
  lemma FindCompose(cats: seq<int>, types: seq<int>, apps: seq<int>, d: Dimension)
    ensures Find(Field(d), Compose(cats, types, apps)) ==
            (if Pick(d, cats, types, apps) == [] then None else Some(JoinIds(Pick(d, cats, types, apps))))
  {
    var cs := ClausesFor(cats, types, apps);
    var p := Field(d);
    FirstOfClauses(cats, types, apps, d);
    FieldLetters(d);
    if cs == [] {
      FindEmpty(p);
    } else {
      assert forall i :: 0 <= i < |cs| ==> cs[i].ids != [];
      Assoc("not(", JoinOr(cs), ")");
      SkipAbsent(p, "not(", JoinOr(cs) + ")");
      JoinOrFind(cs, d, ")");
    }
  }

  /** Reading the allow-all traffic back gives, for every dimension,
      exactly the ids it was composed from, in whatever order they were
      written. */
  lemma ExtractCompose(cats: seq<int>, types: seq<int>, apps: seq<int>, d: Dimension)
    requires AllInt32(cats) && AllInt32(types) && AllInt32(apps)
    ensures Extract(d, Compose(cats, types, apps)) == Some(Elems(Pick(d, cats, types, apps)))
  {
    var xs := Pick(d, cats, types, apps);
    FindCompose(cats, types, apps, d);
    if xs == [] {
      assert Elems(xs) == {};
    } else {
      SplitJoin(xs);
      ParseAllTexts(xs);
    }
  }

  /** The allow-all traffic is empty exactly when no ids were found. */
  lemma ComposeEmpty(cats: seq<int>, types: seq<int>, apps: seq<int>)
    ensures Compose(cats, types, apps) == "" <==> cats == [] && types == [] && apps == []
  {
  }

  /** A traffic string that never spells the pattern of `d` adds nothing. */
  lemma ExtractAbsent(d: Dimension, traffic: string)
    requires forall j :: 0 <= j <= |traffic| ==> !StartsWith(traffic[j..], Field(d))
    ensures Extract(d, traffic) == Some({})
  {
    FindIsLeftmost(Field(d), traffic);
  }

  /** Only the first clause of a kind is read: a second clause of the same
      kind behind it changes nothing. */
  lemma ExtractFirstOnly(d: Dimension, first: seq<int>, second: seq<int>)
    requires first != [] && second != [] && AllInt32(first)
    ensures Extract(d, ClauseText(Clause(d, first)) + " or " + ClauseText(Clause(d, second)))
            == Some(Elems(first))
  {
    ClauseMatch(Clause(d, first), " or " + ClauseText(Clause(d, second)));
    assert ClauseText(Clause(d, first)) + " or " + ClauseText(Clause(d, second))
        == ClauseText(Clause(d, first)) + (" or " + ClauseText(Clause(d, second)));
    SplitJoin(first);
    ParseAllTexts(first);
  }

  /** A single clause read back: its own ids for its dimension, nothing for
      the others. */
  lemma ExtractClause(c: Clause, d: Dimension)
    requires c.ids != [] && AllInt32(c.ids)
    ensures Extract(d, ClauseText(c)) == if d == c.dim then Some(Elems(c.ids)) else Some({})
  {
    assert ClauseText(c) + "" == ClauseText(c);
    if d == c.dim {
      ClauseMatch(c, "");
      SplitJoin(c.ids);
      ParseAllTexts(c.ids);
    } else {
      ClauseSkip(c, d, "");
      FieldLetters(d);
      FindEmpty(Field(d));
    }
  }
}
