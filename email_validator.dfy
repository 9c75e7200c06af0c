// The email-address check used by registration: a hand-coded recognizer
// of the language of
//   ^[a-zA-Z0-9_+&*-]+(?:\.[a-zA-Z0-9_+&*-]+)*@(?:[a-zA-Z0-9-]+\.)+[a-zA-Z]{2,7}$
// proved equal to a definition that follows the expression's structure.
module EmailValidator {

  import opened Wrappers

  predicate IsLetter(c: char)
  {
    ('a' <= c <= 'z') || ('A' <= c <= 'Z')
  }

  predicate IsDigit(c: char)
  {
    '0' <= c <= '9'
  }

  /** The two bracket classes of the expression that words are made of. */
  datatype CharClass = LocalChars | LabelChars

  /** `[a-zA-Z0-9_+&*-]` and `[a-zA-Z0-9-]`; neither holds '.' or '@'. */
  predicate In(c: char, cls: CharClass)
  {
    IsLetter(c) || IsDigit(c) || c == '-'
    || (cls == LocalChars && (c == '_' || c == '+' || c == '&' || c == '*'))
  }

  // ---------------------------------------------------------------------
  // The language, following the expression's structure.

  /** `[cls]+` */
  ghost predicate Word(w: string, cls: CharClass)
  {
    |w| > 0 && forall k :: 0 <= k < |w| ==> In(w[k], cls)
  }

  /** `[cls]+(?:\.[cls]+)*`: a word, then any number of dot-words. */
  ghost predicate Dotted(w: string, cls: CharClass)
    decreases |w|
  {
    Word(w, cls)
    || exists k :: 0 < k < |w| && w[k] == '.' && Word(w[..k], cls) && Dotted(w[k + 1..], cls)
  }

  /** `[a-zA-Z]{2,7}` */
  predicate TopLevel(t: string)
  {
    2 <= |t| <= 7 && forall k :: 0 <= k < |t| ==> IsLetter(t[k])
  }

  /** The whole expression: the local part, '@', then one or more labels
      each followed by '.' (that is, dotted labels and a final dot), then
      the top-level label; `matches` anchors it at both ends. */
  ghost predicate InLanguage(s: string)
  {
    exists i, j :: 0 <= i < j < |s| && s[i] == '@' && s[j] == '.'
      && Dotted(s[..i], LocalChars) && Dotted(s[i + 1..j], LabelChars) && TopLevel(s[j + 1..])
  }

  // ---------------------------------------------------------------------
  // The recognizer.

  /** The dot rules of a dotted word, checked by position: non-empty, only
      class characters and dots, no dot first or last, no two dots in a row. */
  predicate DotRules(w: string, cls: CharClass)
  {
    |w| > 0 && w[0] != '.' && w[|w| - 1] != '.'
    && (forall k :: 0 <= k < |w| ==> In(w[k], cls) || w[k] == '.')
    && (forall k :: 0 <= k < |w| - 1 ==> w[k] == '.' ==> w[k + 1] != '.')
  }

  /** The index of the first `c` in `s`, `|s|` when there is none. */
  function IndexOf(s: string, c: char): (i: nat)
    ensures i <= |s|
    ensures forall k :: 0 <= k < i ==> s[k] != c
    ensures i < |s| ==> s[i] == c
  {
    if s == [] then 0
    else if s[0] == c then 0
    else 1 + IndexOf(s[1..], c)
  }

  /** The index of the last `c` in `s`, `|s|` when there is none. */
  function LastIndexOf(s: string, c: char): (i: nat)
    ensures i <= |s|
    ensures i < |s| ==> s[i] == c && forall k :: i < k < |s| ==> s[k] != c
    ensures i == |s| ==> forall k :: 0 <= k < |s| ==> s[k] != c
  {
    if s == [] then 0
    else if s[|s| - 1] == c then |s| - 1
    else
      var i := LastIndexOf(s[..|s| - 1], c);
      if i == |s| - 1 then |s| else i
  }

  /** The recognizer: split at the first '@' and at the last '.', then
      check each part by position. */
  predicate Recognizes(s: string)
  {
    var at := IndexOf(s, '@');
    var dot := LastIndexOf(s, '.');
    at < dot < |s|
    && DotRules(s[..at], LocalChars) && DotRules(s[at + 1..dot], LabelChars) && TopLevel(s[dot + 1..])
  }

  /** `test`: null is rejected, anything else must be in the language. */
  function Test(email: Option<string>): (ok: bool)
    ensures ok ==> email.Some?
  {
    email.Some? && Recognizes(email.value)
  }

  // ---------------------------------------------------------------------
  // The recognizer accepts exactly the language.

  /** A word has no dot. */
  lemma WordHasNoDot(w: string, cls: CharClass, k: int)
    requires Word(w, cls) && 0 <= k < |w|
    ensures w[k] != '.' && w[k] != '@'
  {
    assert In(w[k], cls);
  }

  /** A dotted word follows the dot rules. */
  lemma {:induction false} DottedHasDotRules(w: string, cls: CharClass)
    requires Dotted(w, cls)
    ensures DotRules(w, cls)
    decreases |w|
  {
    if !Word(w, cls) {
      var k :| 0 < k < |w| && w[k] == '.' && Word(w[..k], cls) && Dotted(w[k + 1..], cls);
      var rest := w[k + 1..];
      DottedHasDotRules(rest, cls);
      JoinDotRules(w, k, cls);
    }
  }

  /** A word, a dot, and a word that follows the dot rules, follow them. */
  lemma JoinDotRules(w: string, k: nat, cls: CharClass)
    requires 0 < k < |w| && w[k] == '.' && Word(w[..k], cls) && DotRules(w[k + 1..], cls)
    ensures DotRules(w, cls)
  {
    var first, rest := w[..k], w[k + 1..];
    assert w[0] == first[0];
    assert w[|w| - 1] == rest[|rest| - 1];
    forall m | 0 <= m < |w|
      ensures In(w[m], cls) || w[m] == '.'
    {
      if m < k {
        assert w[m] == first[m];
      } else if m > k {
        assert w[m] == rest[m - k - 1];
      }
    }
    forall m | 0 <= m < |w| - 1 && w[m] == '.'
      ensures w[m + 1] != '.'
    {
      if m < k {
        WordHasNoDot(first, cls, m);
      } else if m == k {
        assert w[m + 1] == rest[0];
      } else {
        assert w[m] == rest[m - k - 1] && w[m + 1] == rest[m - k];
      }
    }
  }

  /** A word that follows the dot rules is a dotted word. */
  lemma {:induction false} DotRulesAreDotted(w: string, cls: CharClass)
    requires DotRules(w, cls)
    ensures Dotted(w, cls)
    decreases |w|
  {
    var k := IndexOf(w, '.');
    if k == |w| {
      assert Word(w, cls);
    } else {
      var first, rest := w[..k], w[k + 1..];
      assert 0 < k < |w| - 1;
      assert Word(first, cls);
      assert rest[0] == w[k + 1] != '.';
      assert rest[|rest| - 1] == w[|w| - 1];
      assert forall m :: 0 <= m < |rest| ==> rest[m] == w[k + 1 + m];
      DotRulesAreDotted(rest, cls);
    }
  }

  lemma DottedIff(w: string, cls: CharClass)
    ensures Dotted(w, cls) <==> DotRules(w, cls)
  {
    if Dotted(w, cls) {
      DottedHasDotRules(w, cls);
    }
    if DotRules(w, cls) {
      DotRulesAreDotted(w, cls);
    }
  }

  /** The first '@' and the last '.' are where the language splits. */
  lemma SplitPoints(s: string, i: nat, j: nat)
    requires 0 <= i < j < |s| && s[i] == '@' && s[j] == '.'
    requires DotRules(s[..i], LocalChars) && TopLevel(s[j + 1..])
    ensures IndexOf(s, '@') == i && LastIndexOf(s, '.') == j
  {
    var local, top := s[..i], s[j + 1..];
    forall k | 0 <= k < i
      ensures s[k] != '@'
    {
      assert s[k] == local[k];
    }
    forall k | j < k < |s|
      ensures s[k] != '.'
    {
      assert s[k] == top[k - j - 1];
    }
  }

  lemma RecognizedInLanguage(s: string)
    requires Recognizes(s)
    ensures InLanguage(s)
  {
    var at := IndexOf(s, '@');
    var dot := LastIndexOf(s, '.');
    DottedIff(s[..at], LocalChars);
    DottedIff(s[at + 1..dot], LabelChars);
  }

  /** The split at a given '@' and '.' is the one the recognizer finds. */
  lemma RecognizedAt(s: string, i: nat, j: nat)
    requires 0 <= i < j < |s| && s[i] == '@' && s[j] == '.'
    requires Dotted(s[..i], LocalChars) && Dotted(s[i + 1..j], LabelChars) && TopLevel(s[j + 1..])
    ensures Recognizes(s)
  {
    DottedIff(s[..i], LocalChars);
    DottedIff(s[i + 1..j], LabelChars);
    SplitPoints(s, i, j);
  }

  lemma InLanguageRecognized(s: string)
    requires InLanguage(s)
    ensures Recognizes(s)
  {
    var i, j :| 0 <= i < j < |s| && s[i] == '@' && s[j] == '.'
      && Dotted(s[..i], LocalChars) && Dotted(s[i + 1..j], LabelChars) && TopLevel(s[j + 1..]);
    RecognizedAt(s, i, j);
  }

  /** The recognizer accepts a string exactly when it is in the language
      of the expression. */
  lemma RecognizesIff(s: string)
    ensures Recognizes(s) <==> InLanguage(s)
  {
    if Recognizes(s) {
      RecognizedInLanguage(s);
    }
    if InLanguage(s) {
      InLanguageRecognized(s);
    }
  }

  /** An accepted string has exactly one '@', and ends in a dot and a
      top-level label of 2 to 7 ASCII letters. */
  lemma AcceptedShape(s: string)
    requires Test(Some(s))
    ensures |set k | 0 <= k < |s| && s[k] == '@'| == 1
    ensures exists j :: 0 <= j < |s| && s[j] == '.' && TopLevel(s[j + 1..])
  {
    var at := IndexOf(s, '@');
    var dot := LastIndexOf(s, '.');
    forall k | at < k < |s|
      ensures s[k] != '@'
    {
      if k < dot {
        assert s[at + 1..dot][k - at - 1] == s[k];
      } else if k > dot {
        assert s[dot + 1..][k - dot - 1] == s[k];
      }
    }
    assert (set k | 0 <= k < |s| && s[k] == '@') == {at};
    assert TopLevel(s[dot + 1..]);
  }
}
