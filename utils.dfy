/** The email whitelist compiler: a non-empty list of addresses becomes the
    anchored alternation `^(a1|a2|...)$`, each address lowercased and
    regex-escaped. */
module Utils {
  import opened Wrappers

  /** The only error the compiler raises: an empty list (Python's `ValueError`). */
  datatype RegexError = EmptyEmailList

  // ---------------------------------------------------------------------
  // Lowercasing (ASCII)
  // ---------------------------------------------------------------------

  predicate IsAsciiUpper(c: char) {
    'A' <= c <= 'Z'
  }

  /** One character lowercased: a capital becomes the same letter of the
      alphabet in lower case; every other character is kept. */
  function LowerChar(c: char): (d: char)
    ensures !IsAsciiUpper(d)
    ensures d == c <==> !IsAsciiUpper(c)
    ensures IsAsciiUpper(c) ==> 'a' <= d <= 'z' && d as int - 'a' as int == c as int - 'A' as int
  {
    if IsAsciiUpper(c) then (c as int + 32) as char else c
  }

  /** `str.lower` restricted to ASCII letters. */
  function Lower(s: string): (t: string)
    ensures |t| == |s|
    ensures forall i :: 0 <= i < |s| ==> t[i] == LowerChar(s[i])
  {
    seq(|s|, i requires 0 <= i < |s| => LowerChar(s[i]))
  }

  /** Every address of the list, lowercased, in order. */
  function LowerAll(emails: seq<string>): (r: seq<string>)
    ensures |r| == |emails|
    ensures forall i :: 0 <= i < |emails| ==> r[i] == Lower(emails[i])
  {
    if emails == [] then [] else [Lower(emails[0])] + LowerAll(emails[1..])
  }

  // ---------------------------------------------------------------------
  // Escaping (`re.escape`)
  // ---------------------------------------------------------------------

  /** The characters `re.escape` puts a backslash before:
      `( ) [ ] { } ? * + - | ^ $ \ . & ~ #`, space, and the five
      whitespace controls tab, newline, carriage return, vertical tab and
      form feed. Letters, digits, `@` and `_` are not among them. */
  predicate IsSpecial(c: char) {
    || c == '(' || c == ')' || c == '[' || c == ']' || c == '{' || c == '}'
    || c == '?' || c == '*' || c == '+' || c == '-' || c == '|' || c == '^'
    || c == '$' || c == '\\' || c == '.' || c == '&' || c == '~' || c == '#'
    || c == ' ' || c == '\t' || c == '\n' || c == '\r' || c == '\U{000B}' || c == '\U{000C}'
  }

  /** One character as `re.escape` writes it. */
  function EscapeChar(c: char): (e: string)
    ensures 1 <= |e| <= 2 && e[|e| - 1] == c
    ensures |e| == 2 <==> IsSpecial(c)
    ensures |e| == 2 ==> e[0] == '\\'
    ensures Unescape(e) == [c]
  {
    if IsSpecial(c) then ['\\', c] else [c]
  }

  /** `re.escape`: a backslash before each special character. */
  function Escape(s: string): (e: string)
    ensures |e| >= |s|
  {
    if s == [] then [] else EscapeChar(s[0]) + Escape(s[1..])
  }

  /** Reads an escaped string back: a backslash and the character after it
      stand for that character; anything else stands for itself. */
  function Unescape(e: string): (s: string)
    ensures |s| <= |e|
    decreases |e|
  {
    if e == [] then []
    else if e[0] == '\\' && |e| >= 2 then [e[1]] + Unescape(e[2..])
    else [e[0]] + Unescape(e[1..])
  }

  /** Every string of the list, escaped, in order. */
  function EscapeAll(parts: seq<string>): (r: seq<string>)
    ensures |r| == |parts|
    ensures forall i :: 0 <= i < |parts| ==> r[i] == Escape(parts[i])
  {
    if parts == [] then [] else [Escape(parts[0])] + EscapeAll(parts[1..])
  }

  function UnescapeAll(parts: seq<string>): (r: seq<string>)
    ensures |r| == |parts|
    ensures forall i :: 0 <= i < |parts| ==> r[i] == Unescape(parts[i])
  {
    if parts == [] then [] else [Unescape(parts[0])] + UnescapeAll(parts[1..])
  }

  // ---------------------------------------------------------------------
  // Joining and splitting on `|`
  // ---------------------------------------------------------------------

  /** `'|'.join(parts)`. */
  function JoinBars(parts: seq<string>): (s: string)
    ensures |parts| >= 1 ==> |parts[0]| <= |s| && s[..|parts[0]|] == parts[0]
    ensures |parts| >= 2 ==> |parts[0]| < |s| && s[|parts[0]|] == '|'
  {
    if parts == [] then ""
    else if |parts| == 1 then parts[0]
    else parts[0] + "|" + JoinBars(parts[1..])
  }

  /** Adds `p` to the front of the first piece of a split. */
  function Prepend(p: string, parts: seq<string>): (r: seq<string>)
    requires |parts| >= 1
    ensures |r| == |parts|
  {
    [p + parts[0]] + parts[1..]
  }

  /** The number of `|` characters of `s` that are not escaped by a
      preceding backslash (an escape pair is read as one unit). */
  function UnescapedBars(s: string): (n: nat)
    decreases |s|
  {
    if s == [] then 0
    else if s[0] == '\\' && |s| >= 2 then UnescapedBars(s[2..])
    else if s[0] == '|' then 1 + UnescapedBars(s[1..])
    else UnescapedBars(s[1..])
  }

  /** Splits `s` at its unescaped `|` characters, reading each escape pair
      as one unit; the pieces keep their backslashes. */
  function SplitBars(s: string): (parts: seq<string>)
    ensures |parts| == UnescapedBars(s) + 1
    decreases |s|
  {
    if s == [] then [""]
    else if s[0] == '\\' && |s| >= 2 then Prepend(s[..2], SplitBars(s[2..]))
    else if s[0] == '|' then [""] + SplitBars(s[1..])
    else Prepend(s[..1], SplitBars(s[1..]))
  }

  // ---------------------------------------------------------------------
  // The compiler and the reading of its pattern
  // ---------------------------------------------------------------------

  /** True when `p` has the form `^(` body `)$`. */
  predicate IsAnchored(p: string) {
    |p| >= 4 && p[..2] == "^(" && p[|p| - 2..] == ")$"
  }

  /** The text between the anchors of an anchored pattern. */
  function Body(p: string): (b: string)
    requires IsAnchored(p)
    ensures p == "^(" + b + ")$"
  {
    p[2..|p| - 2]
  }

  /** `create_email_regex`: fails on an empty list; otherwise the escaped,
      lowercased addresses joined by `|` and wrapped in `^(` and `)$`. */
  function CreateEmailRegex(emails: seq<string>): (r: Result<string, RegexError>)
    ensures r.Err? <==> emails == []
    ensures r.Ok? ==> IsAnchored(r.value)
  {
    if emails == [] then Err(EmptyEmailList)
    else Ok("^(" + JoinBars(EscapeAll(LowerAll(emails))) + ")$")
  }

  /** Reads a pattern back into the list of addresses it lists: strip the
      anchors, split at the unescaped bars, unescape each piece. */
  function DecodePattern(p: string): (r: Option<seq<string>>)
    ensures r.Some? <==> IsAnchored(p)
  {
    if IsAnchored(p) then Some(UnescapeAll(SplitBars(Body(p)))) else None
  }

  // ---------------------------------------------------------------------
  // Properties of escaping
  // ---------------------------------------------------------------------

  /** Unescaping undoes escaping. */
  lemma {:induction false} UnescapeEscape(s: string)
    ensures Unescape(Escape(s)) == s
  {
    if s != [] {
      UnescapeEscape(s[1..]);
      var e := Escape(s[1..]);
      if IsSpecial(s[0]) {
        assert Escape(s) == ['\\', s[0]] + e;
        assert (['\\', s[0]] + e)[2..] == e;
      } else {
        assert Escape(s) == [s[0]] + e;
        assert ([s[0]] + e)[1..] == e;
      }
    }
  }

  /** A string with no special character (letters, digits, `@`, `_`) is
      left as it is by escaping. */
  lemma {:induction false} EscapeKeepsPlain(s: string)
    requires forall i :: 0 <= i < |s| ==> !IsSpecial(s[i])
    ensures Escape(s) == s
  {
    if s != [] {
      EscapeKeepsPlain(s[1..]);
    }
  }

  /** A `.` becomes `\.`, and `@`, ASCII letters and digits stay as they are. */
  lemma EscapeOneChar(c: char)
    ensures c == '.' ==> Escape([c]) == "\\."
    ensures c == '@' || 'a' <= c <= 'z' || 'A' <= c <= 'Z' || '0' <= c <= '9' ==> Escape([c]) == [c]
  {
    assert [c][1..] == [];
  }

  /** Escaping distributes over concatenation. */
  lemma {:induction false} EscapeAppend(s: string, t: string)
    ensures Escape(s + t) == Escape(s) + Escape(t)
  {
    if s != [] {
      assert (s + t)[0] == s[0];
      assert (s + t)[1..] == s[1..] + t;
      EscapeAppend(s[1..], t);
    } else {
      assert s + t == t;
    }
  }

  /** Escaping adds no uppercase letter. */
  lemma {:induction false} EscapeNoUpper(s: string)
    requires forall i :: 0 <= i < |s| ==> !IsAsciiUpper(s[i])
    ensures forall i :: 0 <= i < |Escape(s)| ==> !IsAsciiUpper(Escape(s)[i])
  {
    if s != [] {
      EscapeNoUpper(s[1..]);
    }
  }

  // ---------------------------------------------------------------------
  // Properties of splitting
  // ---------------------------------------------------------------------

  lemma PrependPrepend(a: string, b: string, parts: seq<string>)
    requires |parts| >= 1
    ensures Prepend(a, Prepend(b, parts)) == Prepend(a + b, parts)
  {
    assert a + (b + parts[0]) == (a + b) + parts[0];
  }

  lemma SplitBarsEscapePair(c: char, r: string)
    ensures SplitBars(['\\', c] + r) == Prepend(['\\', c], SplitBars(r))
  {
    var s := ['\\', c] + r;
    assert s[..2] == ['\\', c] && s[2..] == r;
  }

  lemma SplitBarsOrdinary(c: char, r: string)
    requires c != '\\' && c != '|'
    ensures SplitBars([c] + r) == Prepend([c], SplitBars(r))
  {
    var s := [c] + r;
    assert s[..1] == [c] && s[1..] == r;
  }

  /** One step of SplitEscapedPrefix: an escape pair or an ordinary
      character in front of a string that splits as `Prepend(e, parts)`. */
  lemma SplitBarsHead(head: string, e: string, t: string)
    requires (|head| == 2 && head[0] == '\\') || (|head| == 1 && head[0] != '\\' && head[0] != '|')
    requires SplitBars(e + t) == Prepend(e, SplitBars(t))
    ensures SplitBars(head + (e + t)) == Prepend(head + e, SplitBars(t))
  {
    if |head| == 2 {
      assert head == ['\\', head[1]];
      SplitBarsEscapePair(head[1], e + t);
    } else {
      assert head == [head[0]];
      SplitBarsOrdinary(head[0], e + t);
    }
    PrependPrepend(head, e, SplitBars(t));
  }

  /** Prepending nothing leaves a split as it is. */
  lemma PrependNothing(parts: seq<string>)
    requires |parts| >= 1
    ensures Prepend("", parts) == parts
  {
    assert "" + parts[0] == parts[0];
    assert [parts[0]] + parts[1..] == parts;
  }

  /** The inductive step of SplitEscapedPrefix: the first character's
      escape is glued in front of what the rest of the string glues. */
  lemma SplitEscapedStep(x: string, t: string)
    requires x != []
    requires SplitBars(Escape(x[1..]) + t) == Prepend(Escape(x[1..]), SplitBars(t))
    ensures SplitBars(Escape(x) + t) == Prepend(Escape(x), SplitBars(t))
  {
    var e := Escape(x[1..]);
    var head := EscapeChar(x[0]);
    assert Escape(x) == head + e;
    GlueHead(head, e, t);
  }

  /** SplitBarsHead for the escape of one character. */
  lemma GlueHead(head: string, e: string, t: string)
    requires (|head| == 2 && head[0] == '\\') || (|head| == 1 && head[0] != '\\' && head[0] != '|')
    requires SplitBars(e + t) == Prepend(e, SplitBars(t))
    ensures SplitBars((head + e) + t) == Prepend(head + e, SplitBars(t))
  {
    SplitBarsHead(head, e, t);
    assert (head + e) + t == head + (e + t);
  }

  /** An escaped string holds no unescaped bar: splitting it followed by
      `t` only glues it to the front of the first piece of `t`. */
  lemma {:induction false} SplitEscapedPrefix(x: string, t: string)
    ensures SplitBars(Escape(x) + t) == Prepend(Escape(x), SplitBars(t))
  {
    if x == [] {
      assert Escape(x) + t == t;
      PrependNothing(SplitBars(t));
    } else {
      SplitEscapedPrefix(x[1..], t);
      SplitEscapedStep(x, t);
    }
  }

  lemma SplitBarsBar(t: string)
    ensures SplitBars("|" + t) == [""] + SplitBars(t)
  {
    assert ("|" + t)[0] == '|' && ("|" + t)[1..] == t;
  }

  lemma PrependEmptyPiece(e: string, parts: seq<string>)
    ensures Prepend(e, [""] + parts) == [e] + parts
  {
    var q := [""] + parts;
    assert e + q[0] == e;
    assert q[1..] == parts;
  }

  /** An escaped string alone is a single piece. */
  lemma SplitEscapedAlone(x: string)
    ensures SplitBars(Escape(x)) == [Escape(x)]
  {
    SplitEscapedPrefix(x, "");
    assert Escape(x) + "" == Escape(x);
  }

  /** An escaped string followed by a bar is a piece of its own. */
  lemma SplitEscapedThenBar(x: string, rest: string)
    ensures SplitBars(Escape(x) + ("|" + rest)) == [Escape(x)] + SplitBars(rest)
  {
    SplitEscapedPrefix(x, "|" + rest);
    SplitBarsBar(rest);
    PrependEmptyPiece(Escape(x), SplitBars(rest));
  }

  /** Splitting escaped strings joined by `|` at the unescaped bars gives
      back the escaped strings, in order. */
  lemma {:induction false} SplitJoinEscaped(xs: seq<string>)
    requires xs != []
    ensures SplitBars(JoinBars(EscapeAll(xs))) == EscapeAll(xs)
  {
    var es := EscapeAll(xs);
    if |xs| == 1 {
      SplitEscapedAlone(xs[0]);
      assert es == [Escape(xs[0])];
    } else {
      assert es[1..] == EscapeAll(xs[1..]);
      SplitJoinEscaped(xs[1..]);
      assert es == [Escape(xs[0])] + es[1..];
      SplitJoinStep(xs[0], es[1..]);
    }
  }

  /** The inductive step of SplitJoinEscaped: one more escaped string in
      front of a join that splits back into its pieces. */
  lemma SplitJoinStep(x: string, rest: seq<string>)
    requires rest != []
    requires SplitBars(JoinBars(rest)) == rest
    ensures SplitBars(JoinBars([Escape(x)] + rest)) == [Escape(x)] + rest
  {
    var all := [Escape(x)] + rest;
    assert all[1..] == rest;
    assert JoinBars(all) == Escape(x) + ("|" + JoinBars(rest));
    SplitEscapedThenBar(x, JoinBars(rest));
  }

  // ---------------------------------------------------------------------
  // Properties of the compiler
  // ---------------------------------------------------------------------

  /** Unescaping every escaped string gives back the strings. */
  lemma UnescapeAllEscapeAll(xs: seq<string>)
    ensures UnescapeAll(EscapeAll(xs)) == xs
  {
    forall i | 0 <= i < |xs|
      ensures UnescapeAll(EscapeAll(xs))[i] == xs[i]
    {
      UnescapeEscape(xs[i]);
    }
  }

  /** The body of the pattern splits into the escaped, lowercased addresses. */
  lemma SplitBody(emails: seq<string>)
    requires emails != []
    ensures CreateEmailRegex(emails).Ok?
    ensures SplitBars(Body(CreateEmailRegex(emails).value)) == EscapeAll(LowerAll(emails))
  {
    var body := JoinBars(EscapeAll(LowerAll(emails)));
    var p := CreateEmailRegex(emails).value;
    assert p == "^(" + body + ")$";
    assert Body(p) == body;
    SplitJoinEscaped(LowerAll(emails));
  }

  /** Round trip: the pattern reads back as exactly the lowercased input
      list, so its alternatives are the listed addresses and nothing else. */
  lemma CreateEmailRegexRoundTrip(emails: seq<string>)
    requires emails != []
    ensures CreateEmailRegex(emails).Ok?
    ensures DecodePattern(CreateEmailRegex(emails).value) == Some(LowerAll(emails))
  {
    SplitBody(emails);
    UnescapeAllEscapeAll(LowerAll(emails));
  }

  /** Order: the i-th alternative of the pattern is the i-th address,
      lowercased and escaped, and there are as many alternatives as
      addresses. */
  lemma CreateEmailRegexAlternatives(emails: seq<string>)
    requires emails != []
    ensures CreateEmailRegex(emails).Ok?
    ensures |SplitBars(Body(CreateEmailRegex(emails).value))| == |emails|
    ensures forall i :: 0 <= i < |emails| ==>
      SplitBars(Body(CreateEmailRegex(emails).value))[i] == Escape(Lower(emails[i]))
  {
    SplitBody(emails);
  }

  /** A full match of an anchored alternation of escaped literals: the
      candidate is the literal text of one of the alternatives. */
  predicate FullMatch(p: string, candidate: string) {
    DecodePattern(p).Some? && candidate in DecodePattern(p).value
  }

  /** The pattern fully matches exactly the lowercased listed addresses:
      no superstring, substring or concatenation of two of them. */
  lemma CreateEmailRegexMatchesExactly(emails: seq<string>, candidate: string)
    requires emails != []
    ensures CreateEmailRegex(emails).Ok?
    ensures FullMatch(CreateEmailRegex(emails).value, candidate)
        <==> exists i :: 0 <= i < |emails| && candidate == Lower(emails[i])
  {
    CreateEmailRegexRoundTrip(emails);
    var lowered := LowerAll(emails);
    if candidate in lowered {
      var i :| 0 <= i < |lowered| && lowered[i] == candidate;
      assert candidate == Lower(emails[i]);
    }
  }

  /** `re.match` of an anchored alternation of escaped literals: `^` holds
      at the start only, and `$` holds at the end and also just before a
      final newline, so a full match followed by one `\n` matches too. */
  predicate ReMatch(p: string, candidate: string)
    ensures ReMatch(p, candidate) ==> IsAnchored(p)
  {
    || FullMatch(p, candidate)
    || (|candidate| >= 1 && candidate[|candidate| - 1] == '\n'
        && FullMatch(p, candidate[..|candidate| - 1]))
  }

  /** `re.match` with a pattern that reads back as `words` accepts exactly
      those words, each alone or followed by a single newline. */
  lemma ReMatchDecoded(p: string, words: seq<string>, candidate: string)
    requires DecodePattern(p) == Some(words)
    ensures ReMatch(p, candidate)
        <==> exists i :: 0 <= i < |words| && (candidate == words[i] || candidate == words[i] + "\n")
  {
    if |candidate| >= 1 {
      var stem := candidate[..|candidate| - 1];
      forall i | 0 <= i < |words| && candidate == words[i] + "\n"
        ensures candidate[|candidate| - 1] == '\n' && stem == words[i]
      {
      }
      if candidate[|candidate| - 1] == '\n' && stem in words {
        var i :| 0 <= i < |words| && stem == words[i];
        assert candidate == stem + "\n";
      }
    }
  }

  /** `re.match` with the pattern accepts exactly the lowercased listed
      addresses, each alone or followed by a single newline. */
  lemma CreateEmailRegexReMatch(emails: seq<string>, candidate: string)
    requires emails != []
    ensures CreateEmailRegex(emails).Ok?
    ensures ReMatch(CreateEmailRegex(emails).value, candidate)
        <==> exists i :: 0 <= i < |emails|
               && (candidate == Lower(emails[i]) || candidate == Lower(emails[i]) + "\n")
  {
    CreateEmailRegexRoundTrip(emails);
    ReMatchDecoded(CreateEmailRegex(emails).value, LowerAll(emails), candidate);
  }

  /** With n addresses the body holds exactly n - 1 unescaped bars. */
  lemma CreateEmailRegexSeparators(emails: seq<string>)
    requires emails != []
    ensures CreateEmailRegex(emails).Ok?
    ensures UnescapedBars(Body(CreateEmailRegex(emails).value)) == |emails| - 1
  {
    SplitBody(emails);
  }

  lemma {:induction false} JoinBarsNoUpper(parts: seq<string>)
    requires forall j, i :: 0 <= j < |parts| && 0 <= i < |parts[j]| ==> !IsAsciiUpper(parts[j][i])
    ensures forall i :: 0 <= i < |JoinBars(parts)| ==> !IsAsciiUpper(JoinBars(parts)[i])
  {
    if |parts| > 1 {
      JoinBarsNoUpper(parts[1..]);
      var rest := JoinBars(parts[1..]);
      assert JoinBars(parts) == parts[0] + "|" + rest;
      forall i | 0 <= i < |JoinBars(parts)|
        ensures !IsAsciiUpper(JoinBars(parts)[i])
      {
        if i < |parts[0]| {
        } else if i == |parts[0]| {
        } else {
          assert JoinBars(parts)[i] == rest[i - |parts[0]| - 1];
        }
      }
    }
  }

  /** The pattern holds no uppercase ASCII letter: every address is
      lowercased before it is escaped. */
  lemma CreateEmailRegexLowercase(emails: seq<string>)
    requires emails != []
    ensures CreateEmailRegex(emails).Ok?
    ensures forall i :: 0 <= i < |CreateEmailRegex(emails).value| ==>
      !IsAsciiUpper(CreateEmailRegex(emails).value[i])
  {
    var es := EscapeAll(LowerAll(emails));
    forall j | 0 <= j < |es|
      ensures forall i :: 0 <= i < |es[j]| ==> !IsAsciiUpper(es[j][i])
    {
      EscapeNoUpper(Lower(emails[j]));
    }
    JoinBarsNoUpper(es);
    var body := JoinBars(es);
    var p := CreateEmailRegex(emails).value;
    assert p == "^(" + body + ")$";
    forall i | 0 <= i < |p|
      ensures !IsAsciiUpper(p[i])
    {
      if 2 <= i < 2 + |body| {
        assert p[i] == body[i - 2];
      }
    }
  }

  // ---------------------------------------------------------------------
  // The addresses of test_utils.py
  // ---------------------------------------------------------------------

  /** Characters of the test addresses that neither lowercasing nor
      escaping changes. */
  predicate IsPlainLower(c: char) {
    'a' <= c <= 'z' || '0' <= c <= '9' || c == '@'
  }

  lemma LowerAppend(s: string, t: string)
    ensures Lower(s + t) == Lower(s) + Lower(t)
  {
  }

  /** A word of lowercase letters, digits and `@` is its own escaped,
      lowercased form. */
  lemma PlainWord(w: string)
    requires forall i :: 0 <= i < |w| ==> IsPlainLower(w[i])
    ensures Escape(Lower(w)) == w
  {
    assert Lower(w) == w;
    forall i | 0 <= i < |w|
      ensures !IsSpecial(w[i])
    {
      EscapeOneChar(w[i]);
    }
    EscapeKeepsPlain(w);
  }

  /** The dot between two parts of an address is escaped as `\.`. */
  lemma DottedPair(a: string, b: string)
    ensures Escape(Lower(a + "." + b)) == Escape(Lower(a)) + "\\." + Escape(Lower(b))
  {
    var la, lb := Lower(a), Lower(b);
    LowerAppend(a + ".", b);
    LowerAppend(a, ".");
    assert Lower(".") == ".";
    assert Lower(a + "." + b) == la + "." + lb;
    EscapeAppend(la + ".", lb);
    EscapeAppend(la, ".");
    EscapeOneChar('.');
    assert Escape(la + "." + lb) == Escape(la) + "\\." + Escape(lb);
  }

  /** `john.smith@example.com` and its escaped form split at their dots. */
  lemma JohnSmithDotsSplit()
    ensures "john.smith@example.com" == "john" + "." + ("smith@example" + "." + "com")
    ensures "john\\.smith@example\\.com" == "john" + "\\." + ("smith@example" + "\\." + "com")
  {
  }

  /** `roger.jones@example.com` and its escaped form split at their dots. */
  lemma RogerJonesDotsSplit()
    ensures "roger.jones@example.com" == "roger" + "." + ("jones@example" + "." + "com")
    ensures "roger\\.jones@example\\.com" == "roger" + "\\." + ("jones@example" + "\\." + "com")
  {
  }

  /** `me@me.com` and its escaped form split at the dot. */
  lemma MeDotSplit()
    ensures "me@me.com" == "me@me" + "." + "com"
    ensures "me@me\\.com" == "me@me" + "\\." + "com"
  {
  }

  /** `john.smith@example.com` is written `john\.smith@example\.com`. */
  lemma EscapeJohnSmith(email: string)
    requires email == "john.smith@example.com"
    ensures Escape(Lower(email)) == "john\\.smith@example\\.com"
  {
    DottedPair("smith@example", "com");
    PlainWord("smith@example");
    PlainWord("com");
    PlainWord("john");
    DottedPair("john", "smith@example" + "." + "com");
    JohnSmithDotsSplit();
  }

  /** `roger.jones@example.com` is written `roger\.jones@example\.com`. */
  lemma EscapeRogerJones(email: string)
    requires email == "roger.jones@example.com"
    ensures Escape(Lower(email)) == "roger\\.jones@example\\.com"
  {
    DottedPair("jones@example", "com");
    PlainWord("jones@example");
    PlainWord("com");
    PlainWord("roger");
    DottedPair("roger", "jones@example" + "." + "com");
    RogerJonesDotsSplit();
  }

  /** `me@me.com` is written `me@me\.com`. */
  lemma EscapeMe(email: string)
    requires email == "me@me.com"
    ensures Escape(Lower(email)) == "me@me\\.com"
  {
    DottedPair("me@me", "com");
    PlainWord("me@me");
    PlainWord("com");
    MeDotSplit();
  }

  /** The pattern of a list whose escaped, lowercased addresses are known. */
  lemma PatternOfEscaped(emails: seq<string>, escaped: seq<string>)
    requires emails != [] && |escaped| == |emails|
    requires forall i :: 0 <= i < |emails| ==> Escape(Lower(emails[i])) == escaped[i]
    ensures CreateEmailRegex(emails) == Ok("^(" + JoinBars(escaped) + ")$")
  {
    assert EscapeAll(LowerAll(emails)) == escaped;
  }

  /** The escaped John Smith address wrapped in the anchors is the pattern
      the test expects. */
  lemma JohnSmithPatternText(x: string)
    requires x == "john\\.smith@example\\.com"
    ensures "^(" + x + ")$" == "^(john\\.smith@example\\.com)$"
  {
  }

  lemma OneAddressExample(john: string)
    requires john == "john.smith@example.com"
    ensures CreateEmailRegex([john]) == Ok("^(john\\.smith@example\\.com)$")
  {
    var x := Escape(Lower(john));
    EscapeJohnSmith(john);
    PatternOfEscaped([john], [x]);
    JohnSmithPatternText(x);
  }

  lemma TwoAddressesExample(john: string, roger: string)
    requires john == "john.smith@example.com"
    requires roger == "roger.jones@example.com"
    ensures CreateEmailRegex([john, roger])
      == Ok("^(" + "john\\.smith@example\\.com" + "|" + "roger\\.jones@example\\.com" + ")$")
  {
    var x, y := Escape(Lower(john)), Escape(Lower(roger));
    EscapeJohnSmith(john);
    EscapeRogerJones(roger);
    PatternOfEscaped([john, roger], [x, y]);
    JoinTwo(x, y);
  }

  /** Two pieces joined by a bar, wrapped in the anchors. */
  lemma JoinTwo(x: string, y: string)
    ensures "^(" + JoinBars([x, y]) + ")$" == "^(" + x + "|" + y + ")$"
  {
    assert [x, y][1..] == [y];
    assert JoinBars([x, y]) == x + "|" + y;
  }

  lemma ThreeAddressesExample(john: string, roger: string, me: string)
    requires john == "john.smith@example.com"
    requires roger == "roger.jones@example.com"
    requires me == "me@me.com"
    ensures CreateEmailRegex([john, roger, me])
      == Ok("^(" + "john\\.smith@example\\.com" + "|" + "roger\\.jones@example\\.com"
            + "|" + "me@me\\.com" + ")$")
  {
    var x, y, z := Escape(Lower(john)), Escape(Lower(roger)), Escape(Lower(me));
    EscapeJohnSmith(john);
    EscapeRogerJones(roger);
    EscapeMe(me);
    PatternOfEscaped([john, roger, me], [x, y, z]);
    JoinThree(x, y, z);
  }

  /** Three pieces joined by bars, wrapped in the anchors. */
  lemma JoinThree(x: string, y: string, z: string)
    ensures "^(" + JoinBars([x, y, z]) + ")$" == "^(" + x + "|" + y + "|" + z + ")$"
  {
    assert [x, y, z][1..] == [y, z];
    assert [y, z][1..] == [z];
    assert JoinBars([y, z]) == y + "|" + z;
    assert JoinBars([x, y, z]) == x + "|" + (y + "|" + z);
  }

  /** The three lists of test_utils.py compile to the patterns it expects. */
  lemma CreateEmailRegexExamples(john: string, roger: string, me: string)
    requires john == "john.smith@example.com"
    requires roger == "roger.jones@example.com"
    requires me == "me@me.com"
    ensures CreateEmailRegex([john]) == Ok("^(john\\.smith@example\\.com)$")
    ensures CreateEmailRegex([john, roger])
      == Ok("^(" + "john\\.smith@example\\.com" + "|" + "roger\\.jones@example\\.com" + ")$")
    ensures CreateEmailRegex([john, roger, me])
      == Ok("^(" + "john\\.smith@example\\.com" + "|" + "roger\\.jones@example\\.com"
            + "|" + "me@me\\.com" + ")$")
  {
    OneAddressExample(john);
    TwoAddressesExample(john, roger);
    ThreeAddressesExample(john, roger, me);
  }

  /** An address `a.b` whose two parts are plain is written `a\.b`. */
  lemma EscapeDottedAddress(email: string, a: string, b: string)
    requires email == a + "." + b
    requires forall i :: 0 <= i < |a| ==> IsPlainLower(a[i])
    requires forall i :: 0 <= i < |b| ==> IsPlainLower(b[i])
    ensures Escape(Lower(email)) == a + "\\." + b
  {
    DottedPair(a, b);
    PlainWord(a);
    PlainWord(b);
  }

  /** The pattern of a one-address list `a.b` with plain parts. */
  lemma SingleAddressPattern(email: string, a: string, b: string)
    requires email == a + "." + b
    requires forall i :: 0 <= i < |a| ==> IsPlainLower(a[i])
    requires forall i :: 0 <= i < |b| ==> IsPlainLower(b[i])
    ensures CreateEmailRegex([email]) == Ok("^(" + (a + "\\." + b) + ")$")
  {
    EscapeDottedAddress(email, a, b);
    PatternOfEscaped([email], [a + "\\." + b]);
  }

  /** Lowercasing leaves a string without uppercase letters as it is. */
  lemma LowerKeepsLowercase(w: string)
    requires forall i :: 0 <= i < |w| ==> !IsAsciiUpper(w[i])
    ensures Lower(w) == w
  {
  }

  /** Against the pattern of two lowercase addresses, `re.match` accepts a
      candidate exactly when it is one of them, alone or followed by a
      single newline. */
  lemma TwoAddressMatch(a: string, b: string, candidate: string)
    requires forall i :: 0 <= i < |a| ==> !IsAsciiUpper(a[i])
    requires forall i :: 0 <= i < |b| ==> !IsAsciiUpper(b[i])
    ensures CreateEmailRegex([a, b]).Ok?
    ensures ReMatch(CreateEmailRegex([a, b]).value, candidate)
        <==> candidate == a || candidate == b || candidate == a + "\n" || candidate == b + "\n"
  {
    CreateEmailRegexRoundTrip([a, b]);
    LowerKeepsLowercase(a);
    LowerKeepsLowercase(b);
    assert LowerAll([a, b]) == [a, b];
    ReMatchDecoded(CreateEmailRegex([a, b]).value, [a, b], candidate);
  }

  lemma JohnRogerMatch(john: string, roger: string, candidate: string)
    requires john == "john.smith@example.com"
    requires roger == "roger.jones@example.com"
    ensures CreateEmailRegex([john, roger]).Ok?
    ensures ReMatch(CreateEmailRegex([john, roger]).value, candidate)
        <==> candidate == john || candidate == roger || candidate == john + "\n" || candidate == roger + "\n"
  {
    TwoAddressMatch(john, roger, candidate);
  }

  /** The five candidates of test_utils.py that `re.match` must reject. */
  lemma ReMatchRejects(john: string, roger: string)
    requires john == "john.smith@example.com"
    requires roger == "roger.jones@example.com"
    ensures CreateEmailRegex([john, roger]).Ok?
    ensures var p := CreateEmailRegex([john, roger]).value;
      && !ReMatch(p, "john")
      && !ReMatch(p, "manyjohn.smith@example.com")
      && !ReMatch(p, "john.smith@example.com.uk")
      && !ReMatch(p, "john.smith@example.roger")
      && !ReMatch(p, "john.smith@example.comroger.jones@example.com")
  {
    JohnRogerMatch(john, roger, "john");
    JohnRogerMatch(john, roger, "manyjohn.smith@example.com");
    JohnRogerMatch(john, roger, "john.smith@example.com.uk");
    JohnRogerMatch(john, roger, "john.smith@example.roger");
    JohnRogerMatch(john, roger, "john.smith@example.comroger.jones@example.com");
    assert "john.smith@example.roger"[19] != john[19];
  }

  /** The candidates of test_utils.py against the pattern of John Smith
      and Roger Jones: only the two listed addresses match. A listed
      address followed by a newline matches as well, since `$` holds
      before a final newline. */
  lemma ReMatchExamples(john: string, roger: string)
    requires john == "john.smith@example.com"
    requires roger == "roger.jones@example.com"
    ensures CreateEmailRegex([john, roger]).Ok?
    ensures var p := CreateEmailRegex([john, roger]).value;
      && !ReMatch(p, "john")
      && !ReMatch(p, "manyjohn.smith@example.com")
      && !ReMatch(p, "john.smith@example.com.uk")
      && !ReMatch(p, "john.smith@example.roger")
      && !ReMatch(p, "john.smith@example.comroger.jones@example.com")
      && ReMatch(p, john)
      && ReMatch(p, roger)
      && ReMatch(p, john + "\n")
  {
    ReMatchRejects(john, roger);
    JohnRogerMatch(john, roger, john);
    JohnRogerMatch(john, roger, roger);
    JohnRogerMatch(john, roger, john + "\n");
  }
}
