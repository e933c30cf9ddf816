/**
 * The parts of Go's strings, strconv and path packages that file/file.go calls,
 * on strings of ASCII characters. Paths use '/' as their only separator.
 */
module GoLib {

  // ---------------------------------------------------------------- strings

  /** strings.ToLower restricted to ASCII: 'A'..'Z' become 'a'..'z'. */
  function LowerChar(c: char): (r: char)
    ensures 'A' <= c <= 'Z' ==> 'a' <= r <= 'z' && r as int == c as int + 32
    ensures !('A' <= c <= 'Z') ==> r == c
  {
    if 'A' <= c <= 'Z' then (c as int + 32) as char else c
  }

  function ToLower(s: string): (r: string)
    ensures |r| == |s|
    ensures forall i :: 0 <= i < |s| ==> r[i] == LowerChar(s[i])
  {
    seq(|s|, i requires 0 <= i < |s| => LowerChar(s[i]))
  }

  /** A string with no upper-case letter, which is what ToLower always yields. */
  predicate IsLower(s: string) {
    forall i :: 0 <= i < |s| ==> !('A' <= s[i] <= 'Z')
  }

  /** Lower-casing maps each capital to its own small letter: "AbC" becomes "abc". */
  lemma ToLowerOfMixedCase()
    ensures ToLower("AbC") == "abc"
    ensures ToLower("A") != ToLower("B")
  {
    assert ToLower("A")[0] == 'a' && ToLower("B")[0] == 'b';
  }

  lemma ToLowerIsLower(s: string)
    ensures IsLower(ToLower(s))
  {
  }

  /** sub occurs in s at byte offset j. */
  predicate OccursAt(s: string, sub: string, j: int) {
    0 <= j <= |s| - |sub| && s[j..j + |sub|] == sub
  }

  /**
   * strings.Index: the first byte offset at which sub occurs in s, or -1.
   * The empty string occurs at offset 0 of every string.
   */
  function Index(s: string, sub: string): (r: int)
    ensures r == -1 || OccursAt(s, sub, r)
    ensures forall j :: 0 <= j < r ==> !OccursAt(s, sub, j)
    ensures r == -1 ==> forall j :: !OccursAt(s, sub, j)
    decreases |s|
  {
    if |s| < |sub| then -1
    else if s[..|sub|] == sub then 0
    else
      var t := s[1..];
      var k := Index(t, sub);
      assert forall j :: 1 <= j ==> OccursAt(s, sub, j) == OccursAt(t, sub, j - 1);
      if k == -1 then -1 else k + 1
  }

  /** strings.Contains(s, sub), which Go defines as Index(s, sub) >= 0. */
  predicate Contains(s: string, sub: string) {
    Index(s, sub) >= 0
  }

  lemma ContainsIff(s: string, sub: string)
    ensures Contains(s, sub) <==> exists j :: OccursAt(s, sub, j)
  {
  }

  /**
   * strings.Replace(s, pattern, replacement, 1): the first occurrence of pattern replaced.
   * An empty pattern matches at the very start, so the replacement is put in front of s.
   */
  function ReplaceFirst(s: string, pattern: string, replacement: string): (r: string)
    ensures pattern == replacement || Index(s, pattern) < 0 ==> r == s
    ensures pattern != replacement && Index(s, pattern) >= 0 ==>
      var i := Index(s, pattern);
      && |r| == |s| - |pattern| + |replacement|
      && r[..i] == s[..i]
      && r[i..i + |replacement|] == replacement
      && r[i + |replacement|..] == s[i + |pattern|..]
  {
    if pattern == replacement then s
    else if pattern == [] then replacement + s
    else
      var i := Index(s, pattern);
      if i < 0 then s else s[..i] + replacement + s[i + |pattern|..]
  }

  /** A suffix of s occurs in s, so strings.Index finds it no later than where the suffix starts. */
  lemma SuffixOccurs(s: string, suffix: string)
    requires |suffix| <= |s| && suffix == s[|s| - |suffix|..]
    ensures 0 <= Index(s, suffix) <= |s| - |suffix|
  {
    assert OccursAt(s, suffix, |s| - |suffix|);
  }

  /** Putting ins + pattern in place of an occurrence of pattern at i inserts ins at i. */
  lemma SpliceBefore(s: string, i: int, pattern: string, ins: string)
    requires OccursAt(s, pattern, i)
    ensures s[..i] + (ins + pattern) + s[i + |pattern|..] == s[..i] + ins + s[i..]
  {
    var rest := s[i + |pattern|..];
    assert s[i..] == pattern + rest;
    assert s[..i] + (ins + pattern) + rest == s[..i] + ins + (pattern + rest);
  }

  /** Replacing the first occurrence of pattern by ins + pattern inserts ins in front of it. */
  lemma ReplaceFirstInserts(s: string, pattern: string, ins: string)
    requires ins != [] && Index(s, pattern) >= 0
    ensures ReplaceFirst(s, pattern, ins + pattern) == s[..Index(s, pattern)] + ins + s[Index(s, pattern)..]
  {
    var i := Index(s, pattern);
    assert |ins + pattern| > |pattern|;
    if pattern == [] {
      assert s[..i] + ins + s[i..] == ins + s;
    } else {
      SpliceBefore(s, i, pattern, ins);
    }
  }

  /** strings.Index finds an occurrence with none before it. */
  lemma IndexAt(s: string, sub: string, j: int)
    requires OccursAt(s, sub, j)
    requires forall l :: 0 <= l < j ==> !OccursAt(s, sub, l)
    ensures Index(s, sub) == j
  {
  }

  // ---------------------------------------------------------------- strconv

  function DigitChar(d: int): (c: char)
    requires 0 <= d < 10
    ensures '0' <= c <= '9'
  {
    ('0' as int + d) as char
  }

  predicate IsDigits(s: string) {
    forall i :: 0 <= i < |s| ==> '0' <= s[i] <= '9'
  }

  /** The decimal digits of n, most significant first, without leading zeros. */
  function NatToDecimal(n: nat): (r: string)
    ensures |r| >= 1 && IsDigits(r)
    ensures n == 0 ==> r == "0"
    ensures n > 0 ==> r[0] != '0'
    decreases n
  {
    if n < 10 then [DigitChar(n)] else NatToDecimal(n / 10) + [DigitChar(n % 10)]
  }

  /** strconv.Itoa: the decimal form of n, with a leading '-' when n is negative. */
  function Itoa(n: int): (r: string)
    ensures |r| >= 1
    ensures n >= 0 ==> IsDigits(r) && DecimalValue(r) == n
    ensures n < 0 ==> r[0] == '-' && IsDigits(r[1..]) && DecimalValue(r[1..]) == -n
    ensures n == 0 ==> r == "0"
    ensures n > 0 ==> r[0] != '0'
    ensures n < 0 ==> |r| >= 2 && r[1] != '0'
  {
    if n < 0 then
      var d := NatToDecimal(-n);
      DecimalRoundTrip(-n);
      assert ("-" + d)[1..] == d;
      "-" + d
    else
      DecimalRoundTrip(n);
      NatToDecimal(n)
  }

  /** The number a string of decimal digits denotes (strconv.Atoi on digit strings). */
  function DecimalValue(s: string): nat
    requires IsDigits(s)
    decreases |s|
  {
    if s == [] then 0 else DecimalValue(s[..|s| - 1]) * 10 + (s[|s| - 1] as int - '0' as int)
  }

  lemma {:induction false} DecimalRoundTrip(n: nat)
    ensures DecimalValue(NatToDecimal(n)) == n
    decreases n
  {
    if n >= 10 {
      var prefix := NatToDecimal(n / 10);
      var s := prefix + [DigitChar(n % 10)];
      assert s[..|s| - 1] == prefix;
      DecimalRoundTrip(n / 10);
    }
  }

  /** Different naturals have different digit strings. */
  lemma DecimalInjective(x: nat, y: nat)
    requires NatToDecimal(x) == NatToDecimal(y)
    ensures x == y
  {
    DecimalRoundTrip(x);
    DecimalRoundTrip(y);
  }

  /** The decimal form starts with '-' exactly for a negative number. */
  lemma ItoaSign(n: int)
    ensures Itoa(n)[0] == '-' <==> n < 0
  {
    if n >= 0 {
      assert '0' <= Itoa(n)[0] <= '9';
    }
  }

  /** Different integers have different decimal forms. */
  lemma ItoaInjective(a: int, b: int)
    requires Itoa(a) == Itoa(b)
    ensures a == b
  {
    ItoaSign(a);
    ItoaSign(b);
    if a < 0 {
      var da, db := NatToDecimal(-a), NatToDecimal(-b);
      assert Itoa(a) == "-" + da && Itoa(b) == "-" + db;
      assert da == Itoa(a)[1..] && db == Itoa(b)[1..];
      DecimalInjective(-a, -b);
    } else {
      DecimalInjective(a, b);
    }
  }

  // ---------------------------------------------------------------- path

  /** A string with no '/'. */
  predicate NoSlash(s: string) {
    forall i :: 0 <= i < |s| ==> s[i] != '/'
  }

  /**
   * A name that path.Clean keeps as it is: non-empty, without '/', and neither "." nor "..".
   * Directory listings only ever yield such names.
   */
  predicate PlainName(e: string) {
    e != [] && NoSlash(e) && e != "." && e != ".."
  }

  /** strings.Split(p, "/"): the pieces of p between its slashes, empty ones included. */
  function Split(p: string): (r: seq<string>)
    ensures |r| >= 1
    decreases |p|
  {
    if p == [] then [[]]
    else
      var parts := Split(p[..|p| - 1]);
      if p[|p| - 1] == '/' then parts + [[]]
      else parts[..|parts| - 1] + [parts[|parts| - 1] + [p[|p| - 1]]]
  }

  /**
   * path.Clean's treatment of one element e, given the elements kept so far: empty
   * elements and "." are dropped; ".." removes the last kept element unless that is
   * itself "..", is dropped at the root of a rooted path, and is kept otherwise.
   */
  function CleanStep(rooted: bool, kept: seq<string>, e: string): seq<string> {
    if e == [] || e == "." then kept
    else if e == ".." then
      if kept != [] && kept[|kept| - 1] != ".." then kept[..|kept| - 1]
      else if rooted then kept
      else kept + [e]
    else kept + [e]
  }

  /** The elements path.Clean keeps, processing es from left to right. */
  function CleanElements(rooted: bool, es: seq<string>): (kept: seq<string>)
    ensures |kept| <= |es|
    decreases |es|
  {
    if es == [] then [] else CleanStep(rooted, CleanElements(rooted, es[..|es| - 1]), es[|es| - 1])
  }

  /** Non-empty elements joined by '/'. */
  function JoinElements(es: seq<string>): (r: string)
    requires es != []
    ensures es[0] != [] ==> r != [] && r[0] == es[0][0]
    decreases |es|
  {
    if |es| == 1 then es[0] else JoinElements(es[..|es| - 1]) + "/" + es[|es| - 1]
  }

  /** The text path.Clean writes for the kept elements: "/" or "." when none are left. */
  function Render(rooted: bool, kept: seq<string>): string {
    if kept == [] then (if rooted then "/" else ".")
    else (if rooted then "/" else "") + JoinElements(kept)
  }

  /**
   * path.Clean: the shortest path naming the same file as p by purely lexical
   * processing; "." for the empty path.
   */
  function Clean(p: string): (r: string)
    ensures p != [] && p[0] == '/' ==> r != [] && r[0] == '/'
  {
    var rooted := p != [] && p[0] == '/';
    Render(rooted, CleanElements(rooted, Split(p)))
  }

  /**
   * path.Join (and filepath.Join with '/' as separator) for two elements: empty elements
   * are dropped, the rest are joined by '/' and the result is cleaned; "" when both are empty.
   */
  function Join(a: string, b: string): (r: string)
    ensures a != [] && a[0] == '/' ==> r != [] && r[0] == '/'
  {
    if a == [] && b == [] then []
    else if a == [] then Clean(b)
    else if b == [] then Clean(a)
    else Clean(a + "/" + b)
  }

  /**
   * What path.Join puts in front of a plain name joined to a: nothing below "." or an
   * empty a, "/" below the root, and otherwise the cleaned a and a '/'.
   */
  function JoinPrefix(a: string): (r: string)
    ensures r == [] || r[|r| - 1] == '/'
  {
    if a == [] then []
    else
      var c := Clean(a);
      if c == "." then [] else if c == "/" then "/" else c + "/"
  }

  lemma {:induction false} SplitPlain(e: string)
    requires NoSlash(e)
    ensures Split(e) == [e]
    decreases |e|
  {
    if e != [] {
      var init := e[..|e| - 1];
      SplitPlain(init);
      assert init + [e[|e| - 1]] == e;
    }
  }

  /** Splitting a/e, for e without '/', splits a and adds e. */
  lemma {:induction false} SplitAppend(a: string, e: string)
    requires NoSlash(e)
    ensures Split(a + "/" + e) == Split(a) + [e]
    decreases |e|
  {
    var p := a + "/" + e;
    if e == [] {
      assert p[..|p| - 1] == a;
    } else {
      var init := e[..|e| - 1];
      assert p[..|p| - 1] == a + "/" + init;
      SplitAppend(a, init);
      assert init + [e[|e| - 1]] == e;
    }
  }

  lemma CleanElementsAppend(rooted: bool, es: seq<string>, e: string)
    ensures CleanElements(rooted, es + [e]) == CleanStep(rooted, CleanElements(rooted, es), e)
  {
    assert (es + [e])[..|es|] == es;
  }

  lemma JoinElementsAppend(es: seq<string>, e: string)
    requires es != []
    ensures JoinElements(es + [e]) == JoinElements(es) + "/" + e
  {
    assert (es + [e])[..|es|] == es;
  }

  /** Elements that are never empty join to a string of at least 2|es| - 1 characters. */
  lemma {:induction false} JoinElementsLength(es: seq<string>)
    requires es != [] && forall k :: 0 <= k < |es| ==> es[k] != []
    ensures |JoinElements(es)| >= 2 * |es| - 1
    decreases |es|
  {
    if |es| > 1 {
      JoinElementsLength(es[..|es| - 1]);
    }
  }

  /** Elements that path.Clean can keep: non-empty, without '/', and not ".". */
  predicate KeptElements(es: seq<string>) {
    forall k :: 0 <= k < |es| ==> es[k] != [] && es[k] != "." && NoSlash(es[k])
  }

  lemma {:induction false} SplitHasNoSlash(p: string)
    ensures forall k :: 0 <= k < |Split(p)| ==> NoSlash(Split(p)[k])
    decreases |p|
  {
    if p != [] {
      SplitHasNoSlash(p[..|p| - 1]);
    }
  }

  lemma {:induction false} CleanElementsKept(rooted: bool, es: seq<string>)
    requires forall k :: 0 <= k < |es| ==> NoSlash(es[k])
    ensures KeptElements(CleanElements(rooted, es))
    decreases |es|
  {
    if es != [] {
      CleanElementsKept(rooted, es[..|es| - 1]);
    }
  }

  /** A path with an element left after cleaning is neither "." nor "/". */
  lemma RenderNotDotOrRoot(rooted: bool, kept: seq<string>)
    requires kept != [] && KeptElements(kept)
    ensures Render(rooted, kept) != "." && Render(rooted, kept) != "/"
  {
    JoinElementsLength(kept);
    if |kept| == 1 {
      assert JoinElements(kept) == kept[0];
    }
  }

  /**
   * Joining a with a plain name e puts JoinPrefix(a) in front of e: "./sub" becomes
   * "sub", "/" and "sub" give "/sub", and "a//b/" and "c" give "a/b/c".
   */
  lemma JoinPlainName(a: string, e: string)
    requires PlainName(e)
    ensures Join(a, e) == JoinPrefix(a) + e
  {
    if a == [] {
      CleanOfPlain(e);
    } else {
      CleanAppendPlain(a, e);
    }
  }

  lemma CleanOfPlain(e: string)
    requires PlainName(e)
    ensures Clean(e) == e
  {
    SplitPlain(e);
    CleanElementsAppend(false, [], e);
    assert [] + [e] == [e];
    assert CleanElements(false, Split(e)) == [e];
  }

  /** Rendering one more element adds it after a '/', or after the root alone. */
  lemma RenderAppend(rooted: bool, kept: seq<string>, e: string)
    ensures kept == [] ==> Render(rooted, kept + [e]) == (if rooted then "/" else "") + e
    ensures kept != [] ==> Render(rooted, kept + [e]) == Render(rooted, kept) + "/" + e
  {
    if kept == [] {
      assert kept + [e] == [e];
    } else {
      JoinElementsAppend(kept, e);
      var pre: string := if rooted then "/" else "";
      assert pre + (JoinElements(kept) + "/" + e) == (pre + JoinElements(kept)) + "/" + e;
    }
  }

  /** JoinPrefix of a, in terms of the elements path.Clean keeps of a. */
  lemma JoinPrefixOfKept(a: string)
    requires a != []
    ensures var rooted := a[0] == '/';
      var kept := CleanElements(rooted, Split(a));
      && (kept == [] ==> JoinPrefix(a) == (if rooted then "/" else ""))
      && (kept != [] ==> JoinPrefix(a) == Render(rooted, kept) + "/")
  {
    var rooted := a[0] == '/';
    var kept := CleanElements(rooted, Split(a));
    SplitHasNoSlash(a);
    CleanElementsKept(rooted, Split(a));
    if kept != [] {
      RenderNotDotOrRoot(rooted, kept);
    }
  }

  /** What path.Clean makes of a/e, for a plain e: the elements a keeps, then e. */
  lemma CleanAppendPlain(a: string, e: string)
    requires a != [] && PlainName(e)
    ensures Clean(a + "/" + e) == JoinPrefix(a) + e
  {
    var rooted := a[0] == '/';
    var p := a + "/" + e;
    assert p[0] == a[0];
    SplitAppend(a, e);
    var kept := CleanElements(rooted, Split(a));
    CleanElementsAppend(rooted, Split(a), e);
    assert CleanElements(rooted, Split(p)) == kept + [e];
    RenderAppend(rooted, kept, e);
    JoinPrefixOfKept(a);
  }

  /**
   * The elements path.Clean keeps are in normal form: every ".." comes before every
   * other element, and a rooted path keeps no "..".
   */
  predicate Normal(rooted: bool, kept: seq<string>) {
    && KeptElements(kept)
    && (forall i, j :: 0 <= i < j < |kept| && kept[j] == ".." ==> kept[i] == "..")
    && (rooted ==> forall i :: 0 <= i < |kept| ==> kept[i] != "..")
  }

  lemma {:induction false} CleanElementsNormal(rooted: bool, es: seq<string>)
    requires forall k :: 0 <= k < |es| ==> NoSlash(es[k])
    ensures Normal(rooted, CleanElements(rooted, es))
    decreases |es|
  {
    if es != [] {
      CleanElementsNormal(rooted, es[..|es| - 1]);
      CleanElementsKept(rooted, es);
    }
  }

  /** Cleaning elements already in normal form keeps them all. */
  lemma {:induction false} CleanElementsOfNormal(rooted: bool, kept: seq<string>)
    requires Normal(rooted, kept)
    ensures CleanElements(rooted, kept) == kept
    decreases |kept|
  {
    if kept != [] {
      var init := kept[..|kept| - 1];
      assert Normal(rooted, init);
      CleanElementsOfNormal(rooted, init);
      assert init + [kept[|kept| - 1]] == kept;
    }
  }

  /** A leading empty element, the one before a leading '/', is dropped. */
  lemma {:induction false} CleanElementsLeadingEmpty(rooted: bool, es: seq<string>)
    ensures CleanElements(rooted, [[]] + es) == CleanElements(rooted, es)
    decreases |es|
  {
    var all: seq<string> := [[]] + es;
    if es == [] {
      assert all == [] + [[]];
      CleanElementsAppend(rooted, [], []);
    } else {
      var init := es[..|es| - 1];
      assert all[..|all| - 1] == [[]] + init;
      CleanElementsLeadingEmpty(rooted, init);
    }
  }

  /** Regrouping a/b/c, kept apart so that SplitJoinElements does not re-derive it among Split terms. */
  lemma SlashAssociative(a: string, b: string, c: string)
    ensures a + "/" + (b + "/" + c) == (a + "/" + b) + "/" + c
  {
  }

  /** Splitting a/e1/.../en gives the pieces of a followed by e1, ..., en. */
  lemma {:induction false} SplitJoinElements(a: string, kept: seq<string>)
    requires kept != [] && KeptElements(kept)
    ensures Split(a + "/" + JoinElements(kept)) == Split(a) + kept
    decreases |kept|
  {
    if |kept| == 1 {
      SplitAppend(a, kept[0]);
    } else {
      var init, last := kept[..|kept| - 1], kept[|kept| - 1];
      assert KeptElements(init);
      SplitJoinElements(a, init);
      var s := JoinElements(init);
      assert JoinElements(kept) == s + "/" + last;
      SlashAssociative(a, s, last);
      SplitAppend(a + "/" + s, last);
      assert init + [last] == kept;
    }
  }

  lemma {:induction false} SplitJoinElementsAlone(kept: seq<string>)
    requires kept != [] && KeptElements(kept)
    ensures Split(JoinElements(kept)) == kept
    decreases |kept|
  {
    if |kept| == 1 {
      SplitPlain(kept[0]);
    } else {
      var init, last := kept[..|kept| - 1], kept[|kept| - 1];
      assert KeptElements(init);
      SplitJoinElementsAlone(init);
      SplitAppend(JoinElements(init), last);
      assert init + [last] == kept;
    }
  }

  /** Cleaning a path that path.Clean produced changes nothing. */
  lemma CleanIsIdempotent(p: string)
    ensures Clean(Clean(p)) == Clean(p)
  {
    var rooted := p != [] && p[0] == '/';
    var kept := CleanElements(rooted, Split(p));
    SplitHasNoSlash(p);
    CleanElementsNormal(rooted, Split(p));
    var c := Clean(p);
    assert c == Render(rooted, kept);
    if kept == [] {
      JoinPrefixOfDotAndRoot();
    } else {
      var s := JoinElements(kept);
      if rooted {
        var empty: string := [];
        assert c == empty + "/" + s;
        SplitJoinElements(empty, kept);
        CleanElementsLeadingEmpty(true, kept);
      } else {
        assert c == s && c[0] == kept[0][0];
        SplitJoinElementsAlone(kept);
      }
      CleanElementsOfNormal(rooted, kept);
    }
  }

  /** Path.Clean leaves a plain name as it is, so a plain directory is followed by its name and a '/'. */
  lemma JoinPrefixOfPlain(e: string)
    requires PlainName(e)
    ensures Clean(e) == e
    ensures JoinPrefix(e) == e + "/"
  {
    JoinPlainName([], e);
  }

  /** Below "." a name stands alone, and below "/" it follows the one slash. */
  lemma JoinPrefixOfDotAndRoot()
    ensures Clean(".") == "." && JoinPrefix(".") == []
    ensures Clean("/") == "/" && JoinPrefix("/") == "/"
  {
    CleanOfDot();
    CleanOfRoot();
  }

  lemma CleanOfDot()
    ensures Clean(".") == "."
  {
    var dot := ".";
    SplitPlain(dot);
    CleanElementsAppend(false, [], dot);
    assert [] + [dot] == [dot];
    assert CleanElements(false, Split(dot)) == [];
  }

  lemma CleanOfRoot()
    ensures Clean("/") == "/"
  {
    var empty: string := [];
    var root := "/";
    assert root == empty + "/" + empty;
    SplitAppend(empty, empty);
    assert Split(root) == [empty, empty];
    CleanElementsAppend(true, [], empty);
    CleanElementsAppend(true, [empty], empty);
    assert [empty, empty] == [empty] + [empty];
    assert CleanElements(true, Split(root)) == [];
  }

  /**
   * path.Join(a, path.Join(e1, e2)) for plain names is e1/e2 after JoinPrefix(a): the
   * inner join is already clean and the outer one cleans only a.
   */
  lemma JoinNested(a: string, e1: string, e2: string)
    requires PlainName(e1) && PlainName(e2)
    ensures Join(e1, e2) == e1 + "/" + e2
    ensures Join(a, Join(e1, e2)) == JoinPrefix(a) + e1 + "/" + e2
  {
    JoinPrefixOfPlain(e1);
    JoinPlainName(e1, e2);
    var inner := e1 + "/" + e2;
    if a != [] {
      assert a + "/" + inner == (a + "/" + e1) + "/" + e2;
      JoinPlainName(a + "/" + e1, e2);
      JoinPlainName(a, e1);
      var p := JoinPrefix(a) + e1;
      assert Clean(a + "/" + e1) == p;
      assert p != "." && p != "/" by {
        if JoinPrefix(a) == [] {
          assert p == e1;
        } else {
          assert |p| >= 2;
        }
      }
    }
  }

  /** Joining one directory with two plain names gives one path only for one name. */
  lemma JoinInjective(dir: string, x: string, y: string)
    requires PlainName(x) && PlainName(y)
    requires Join(dir, x) == Join(dir, y)
    ensures x == y
  {
    JoinPlainName(dir, x);
    JoinPlainName(dir, y);
    var k := |JoinPrefix(dir)|;
    assert x == Join(dir, x)[k..];
    assert y == Join(dir, y)[k..];
  }

  function TrimTrailingSlashes(p: string): (r: string)
    ensures r == [] || r[|r| - 1] != '/'
    ensures |r| <= |p| && r == p[..|r|]
  {
    if p != [] && p[|p| - 1] == '/' then TrimTrailingSlashes(p[..|p| - 1]) else p
  }

  /** The characters of p after its last '/' (all of p when it has none). */
  function LastElement(p: string): (r: string)
    ensures |r| <= |p| && r == p[|p| - |r|..]
    ensures forall i :: 0 <= i < |r| ==> r[i] != '/'
    ensures |r| < |p| ==> p[|p| - |r| - 1] == '/'
  {
    if p == [] || p[|p| - 1] == '/' then [] else LastElement(p[..|p| - 1]) + [p[|p| - 1]]
  }

  /**
   * path.Base: the last element of p after trailing slashes are removed;
   * "." for the empty path and "/" for a path of slashes only.
   */
  function Base(p: string): (r: string)
    ensures p == [] ==> r == "."
    ensures p != [] && TrimTrailingSlashes(p) == [] ==> r == "/"
    ensures r != []
    ensures r == "/" || forall i :: 0 <= i < |r| ==> r[i] != '/'
    ensures var t := TrimTrailingSlashes(p);
      t != [] ==> |r| <= |t| && r == t[|t| - |r|..] && (|r| < |t| ==> t[|t| - |r| - 1] == '/')
  {
    if p == [] then "."
    else
      var t := TrimTrailingSlashes(p);
      if t == [] then "/" else LastElement(t)
  }

  /**
   * path.Ext (and filepath.Ext with '/' as separator): the suffix of p that starts
   * at the last '.' of its last element, or "" when that element has no '.'.
   */
  function Ext(p: string): (r: string)
    ensures |r| <= |p| && r == p[|p| - |r|..]
    ensures r != [] ==> r[0] == '.'
    ensures forall i :: 0 < i < |r| ==> r[i] != '.' && r[i] != '/'
  {
    if p == [] || p[|p| - 1] == '/' then []
    else if p[|p| - 1] == '.' then [p[|p| - 1]]
    else
      var e := Ext(p[..|p| - 1]);
      if e == [] then [] else e + [p[|p| - 1]]
  }

  /** When path.Ext finds no extension, every '.' of p lies before a later '/'. */
  lemma {:induction false} NoExtMeansNoDotInLastElement(p: string)
    requires Ext(p) == []
    ensures forall i :: 0 <= i < |p| && p[i] == '.' ==> exists j :: i < j < |p| && p[j] == '/'
    decreases |p|
  {
    if p != [] {
      var n := |p| - 1;
      if p[n] == '/' {
        forall i | 0 <= i < |p| && p[i] == '.'
          ensures exists j :: i < j < |p| && p[j] == '/'
        {
          assert i < n && p[n] == '/';
        }
      } else {
        var init := p[..n];
        assert p[n] != '.' && Ext(init) == [];
        NoExtMeansNoDotInLastElement(init);
        forall i | 0 <= i < |p| && p[i] == '.'
          ensures exists j :: i < j < |p| && p[j] == '/'
        {
          assert i < n && init[i] == '.';
          var j :| i < j < |init| && init[j] == '/';
          assert p[j] == '/';
        }
      }
    }
  }

  /** A name ending in a dot and then characters other than dots and slashes has that ending as extension. */
  lemma {:induction false} ExtOfDotted(stem: string, ext: string)
    requires ext != [] && ext[0] == '.'
    requires forall i :: 0 < i < |ext| ==> ext[i] != '.' && ext[i] != '/'
    ensures Ext(stem + ext) == ext
    decreases |ext|
  {
    var p := stem + ext;
    if |ext| > 1 {
      var init, last := ext[..|ext| - 1], ext[|ext| - 1];
      assert p[|p| - 1] == last;
      assert p[..|p| - 1] == stem + init;
      ExtOfDotted(stem, init);
      assert init + [last] == ext;
    } else {
      assert p[|p| - 1] == '.';
      assert [p[|p| - 1]] == ext;
    }
  }

  /** A path without a dot has no extension. */
  lemma ExtOfUndotted(p: string)
    requires forall i :: 0 <= i < |p| ==> p[i] != '.'
    ensures Ext(p) == []
  {
  }

  /** The last element after a slash (or of a path with no slash) is everything after it. */
  lemma {:induction false} LastElementAfter(dir: string, name: string)
    requires dir == [] || dir[|dir| - 1] == '/'
    requires forall i :: 0 <= i < |name| ==> name[i] != '/'
    ensures LastElement(dir + name) == name
    decreases |name|
  {
    var p := dir + name;
    if name != [] {
      var init, last := name[..|name| - 1], name[|name| - 1];
      assert p[|p| - 1] == last && last != '/';
      assert p[..|p| - 1] == dir + init;
      LastElementAfter(dir, init);
      assert LastElement(p) == LastElement(dir + init) + [last];
      assert init + [last] == name;
    }
  }

  /** path.Base of q/name, or of a bare name, is the name. */
  lemma BaseOfName(dir: string, name: string)
    requires dir == [] || dir[|dir| - 1] == '/'
    requires name != [] && forall i :: 0 <= i < |name| ==> name[i] != '/'
    ensures Base(dir + name) == name
  {
    var p := dir + name;
    assert p[|p| - 1] == name[|name| - 1];
    assert TrimTrailingSlashes(p) == p;
    LastElementAfter(dir, name);
  }
}
