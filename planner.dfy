/**
 * The planning half of file/file.go, shared by PrepareCopy and CopyFilesTo: the
 * destination directory of a file, the renaming of repeated base names, and
 * operationType; and the plan PrepareCopy builds from them.
 */
module Planner {
  import opened GoLib
  import opened Dates
  import opened Model

  // ---------------------------------------------------------------- destination directory

  /** The year of a date as strconv.Itoa prints it never holds a '/'. */
  lemma ItoaHasNoSlash(n: int)
    ensures forall i :: 0 <= i < |Itoa(n)| ==> Itoa(n)[i] != '/'
  {
    var r := Itoa(n);
    if n < 0 {
      forall i | 1 <= i < |r|
        ensures r[i] != '/'
      {
        assert r[i] == r[1..][i - 1];
      }
    }
  }

  /** Month.String gives each month its own name: the first three letters already differ. */
  lemma MonthNameInjective(a: int, b: int)
    requires 1 <= a <= 12 && 1 <= b <= 12
    requires MonthName(a) == MonthName(b)
    ensures a == b
  {
    assert |MonthName(a)| == |MonthName(b)|;
    assert MonthName(a)[0] == MonthName(b)[0];
    assert MonthName(a)[1] == MonthName(b)[1];
    assert MonthName(a)[2] == MonthName(b)[2];
  }

  /** The year as strconv.Itoa prints it and the English month name are plain path elements. */
  lemma BucketElementsArePlain(d: Date)
    ensures PlainName(Itoa(d.year)) && PlainName(MonthName(d.month))
  {
    ItoaHasNoSlash(d.year);
    ItoaSign(d.year);
    var y := Itoa(d.year);
    if d.year >= 0 {
      assert '0' <= y[0] <= '9';
    }
    assert y != "." && y != ".." by {
      assert "."[0] == '.' && ".."[0] == '.';
    }
  }

  /**
   * path.Join(targetDir, path.Join(strconv.Itoa(year), month.String())): the directory
   * <year>/<English month name> below targetDir that a file goes to, e.g. target/2021/August.
   * path.Join cleans targetDir, so below "." the bucket is 2021/August.
   */
  function Bucket(targetDir: string, d: Date): (r: string)
    ensures var tail := Itoa(d.year) + "/" + MonthName(d.month);
      |tail| <= |r| && r[|r| - |tail|..] == tail
  {
    BucketElementsArePlain(d);
    JoinNested(targetDir, Itoa(d.year), MonthName(d.month));
    EndsWith(Join(targetDir, Join(Itoa(d.year), MonthName(d.month))), JoinPrefix(targetDir), Itoa(d.year), MonthName(d.month));
    Join(targetDir, Join(Itoa(d.year), MonthName(d.month)))
  }

  lemma EndsWith(r: string, p: string, y: string, m: string)
    requires r == p + y + "/" + m
    ensures var tail := y + "/" + m; |tail| <= |r| && r[|r| - |tail|..] == tail
  {
    assert r == p + (y + "/" + m);
  }

  /** The bucket is <year>/<month> after what path.Join puts in front of a name below targetDir. */
  lemma BucketIsBelowTarget(targetDir: string, d: Date)
    ensures Bucket(targetDir, d) == JoinPrefix(targetDir) + Itoa(d.year) + "/" + MonthName(d.month)
  {
    BucketElementsArePlain(d);
    JoinNested(targetDir, Itoa(d.year), MonthName(d.month));
  }

  /**
   * Below an empty target or "." the bucket is <year>/<month>, below "/" it is
   * /<year>/<month>, and below a plain directory name it is name/<year>/<month>.
   */
  lemma BucketShape(targetDir: string, d: Date)
    ensures targetDir == [] || targetDir == "." ==> Bucket(targetDir, d) == Itoa(d.year) + "/" + MonthName(d.month)
    ensures targetDir == "/" ==> Bucket(targetDir, d) == "/" + Itoa(d.year) + "/" + MonthName(d.month)
    ensures PlainName(targetDir) ==> Bucket(targetDir, d) == targetDir + "/" + Itoa(d.year) + "/" + MonthName(d.month)
  {
    BucketIsBelowTarget(targetDir, d);
    var p, y, m := JoinPrefix(targetDir), Itoa(d.year), MonthName(d.month);
    if targetDir == [] || targetDir == "." {
      JoinPrefixOfDotAndRoot();
      EmptyPrefix(p, y + "/" + m);
    } else if targetDir == "/" {
      JoinPrefixOfDotAndRoot();
    } else if PlainName(targetDir) {
      JoinPrefixOfPlain(targetDir);
    }
  }

  /** Below "" or "." the prefix is empty; kept apart so the bucket's Join terms stay folded. */
  lemma EmptyPrefix(p: string, s: string)
    requires p == []
    ensures p + s == s
  {
  }

  /** A bucket is clean, so a plain file name joined to it simply follows a '/'. */
  lemma BucketIsClean(targetDir: string, d: Date)
    ensures Clean(Bucket(targetDir, d)) == Bucket(targetDir, d)
    ensures JoinPrefix(Bucket(targetDir, d)) == Bucket(targetDir, d) + "/"
  {
    var y, m := Itoa(d.year), MonthName(d.month);
    BucketElementsArePlain(d);
    JoinNested(targetDir, y, m);
    var inner := y + "/" + m;
    CleanIsIdempotent(if targetDir == [] then inner else targetDir + "/" + inner);
    var b := Bucket(targetDir, d);
    assert |b| >= |y + "/" + m| >= 5;
    assert b != "." && b != "/";
  }

  /** A file from August 2021 goes to path.Join(target, "2021", "August"). */
  lemma BucketOfAugust2021(targetDir: string, d: Date)
    requires d.year == 2021 && d.month == 8
    ensures Bucket(targetDir, d) == JoinPrefix(targetDir) + "2021/August"
  {
    BucketIsBelowTarget(targetDir, d);
    AugustTail();
    PrefixedTail(JoinPrefix(targetDir), Itoa(2021), MonthName(8), "2021/August");
  }

  lemma AugustTail()
    ensures Itoa(2021) + "/" + MonthName(8) == "2021/August"
  {
    assert Itoa(2021) == "2021";
  }

  lemma PrefixedTail(p: string, y: string, m: string, tail: string)
    requires y + "/" + m == tail
    ensures p + y + "/" + m == p + tail
  {
    assert p + y + "/" + m == p + (y + "/" + m);
  }

  /** Behind one prefix, <year>/<month> texts agree only when both parts agree. */
  lemma YearMonthSplit(p: string, y1: string, m1: string, y2: string, m2: string)
    requires NoSlash(y1) && NoSlash(y2)
    requires p + y1 + "/" + m1 == p + y2 + "/" + m2
    ensures y1 == y2 && m1 == m2
  {
    var x, y := y1 + "/" + m1, y2 + "/" + m2;
    assert p + y1 + "/" + m1 == p + x;
    assert p + y2 + "/" + m2 == p + y;
    assert x == (p + x)[|p|..];
    assert y == (p + y)[|p|..];
    assert x[|y1|] == '/' && y[|y2|] == '/';
    assert y1 == x[..|y1|] && y2 == y[..|y2|];
    assert m1 == x[|y1| + 1..];
    assert m2 == y[|y2| + 1..];
  }

  /** Under one target directory, two files share a bucket exactly when they share year and month. */
  lemma BucketIdentifiesMonth(targetDir: string, a: Date, b: Date)
    ensures Bucket(targetDir, a) == Bucket(targetDir, b) <==> a.year == b.year && a.month == b.month
  {
    if Bucket(targetDir, a) == Bucket(targetDir, b) {
      BucketIsBelowTarget(targetDir, a);
      BucketIsBelowTarget(targetDir, b);
      BucketElementsArePlain(a);
      BucketElementsArePlain(b);
      YearMonthSplit(JoinPrefix(targetDir), Itoa(a.year), MonthName(a.month), Itoa(b.year), MonthName(b.month));
      ItoaInjective(a.year, b.year);
      MonthNameInjective(a.month, b.month);
    }
  }

  // ---------------------------------------------------------------- renaming repeated base names

  /**
   * strings.Replace(name, path.Ext(name), "_" + strconv.Itoa(k) + path.Ext(name), 1): the
   * name given to a file that repeats an earlier base name, with k the counter.
   * "_k" goes in front of the FIRST occurrence of the extension text, which need not be
   * the extension itself; with no extension it goes in front of the whole name.
   */
  function Renamed(name: string, k: int): string {
    ReplaceFirst(name, Ext(name), Tag(k) + Ext(name))
  }

  /** The text "_" + strconv.Itoa(k) that renaming inserts. */
  function Tag(k: int): (t: string)
    ensures |t| == 1 + |Itoa(k)| && t[0] == '_' && t[1..] == Itoa(k)
  {
    "_" + Itoa(k)
  }

  /** Renamed(name, k) is name with "_k" inserted where strings.Index finds the extension. */
  lemma RenamedShape(name: string, k: int)
    ensures var i := Index(name, Ext(name));
      0 <= i <= |name| - |Ext(name)| && Renamed(name, k) == name[..i] + Tag(k) + name[i..]
  {
    var ext := Ext(name);
    SuffixOccurs(name, ext);
    ReplaceFirstInserts(name, ext, Tag(k));
  }

  /** The name a file gets when k earlier files had its base name: unchanged for the first. */
  function DestName(base: string, k: nat): (r: string)
    ensures k == 0 ==> r == base
    ensures k > 0 ==> r == Renamed(base, k)
    ensures k > 0 ==> var i := Index(base, Ext(base));
      0 <= i <= |base| - |Ext(base)| && r == base[..i] + Tag(k) + base[i..]
  {
    if k == 0 then base else RenamedShape(base, k); Renamed(base, k)
  }

  /** Different counters give different names for one base name. */
  lemma DestNameInjective(base: string, a: nat, b: nat)
    requires DestName(base, a) == DestName(base, b)
    ensures a == b
  {
    var r := DestName(base, a);
    if a > 0 && b > 0 {
      RenamedShape(base, a);
      RenamedShape(base, b);
      var s, t := Tag(a), Tag(b);
      var i := Index(base, Ext(base));
      assert r == base[..i] + s + base[i..];
      assert r == base[..i] + t + base[i..];
      assert |s| == |t|;
      assert s == r[i..i + |s|];
      assert t == r[i..i + |t|];
      ItoaInjective(a, b);
    } else if a > 0 {
      RenamedShape(base, a);
    } else if b > 0 {
      RenamedShape(base, b);
    }
  }

  /** The base names of the files, in order: the keys of the counter map. */
  function BaseNames(files: seq<FileInfo>): seq<string> {
    seq(|files|, i requires 0 <= i < |files| => Base(files[i].path))
  }

  /** How many times b occurs in names. */
  function Occurrences(names: seq<string>, b: string): (n: nat)
    ensures n <= |names|
  {
    if names == [] then 0
    else Occurrences(names[..|names| - 1], b) + (if names[|names| - 1] == b then 1 else 0)
  }

  lemma OccurrencesStep(names: seq<string>, i: nat, b: string)
    requires i < |names|
    ensures Occurrences(names[..i + 1], b) == Occurrences(names[..i], b) + (if names[i] == b then 1 else 0)
  {
    assert names[..i + 1][..i] == names[..i];
  }

  /** b does not occur exactly when it is counted zero times. */
  lemma {:induction false} OccurrencesZero(names: seq<string>, b: string)
    ensures Occurrences(names, b) == 0 <==> forall l :: 0 <= l < |names| ==> names[l] != b
    decreases |names|
  {
    if names != [] {
      var init := names[..|names| - 1];
      OccurrencesZero(init, b);
      assert forall l :: 0 <= l < |init| ==> init[l] == names[l];
    }
  }

  /** Counting over a longer prefix never gives fewer. */
  lemma {:induction false} OccurrencesMonotone(names: seq<string>, i: nat, j: nat, b: string)
    requires i <= j <= |names|
    ensures Occurrences(names[..i], b) <= Occurrences(names[..j], b)
    decreases j - i
  {
    if i < j {
      OccurrencesStep(names, j - 1, b);
      OccurrencesMonotone(names, i, j - 1, b);
    }
  }

  /**
   * The counter map after the files with these base names: a name's first occurrence maps
   * it to 0, each repeat adds one.
   */
  function Counters(names: seq<string>): map<string, int> {
    if names == [] then map[]
    else
      var m, b := Counters(names[..|names| - 1]), names[|names| - 1];
      if b in m then m[b := m[b] + 1] else m[b := 0]
  }

  /** The map holds exactly the names seen so far, each with one less than its count. */
  lemma {:induction false} CountersCount(names: seq<string>)
    ensures forall b :: b in Counters(names) <==> Occurrences(names, b) > 0
    ensures forall b :: b in Counters(names) ==> Counters(names)[b] == Occurrences(names, b) - 1
    decreases |names|
  {
    if names != [] {
      CountersCount(names[..|names| - 1]);
    }
  }

  lemma CountersSnoc(names: seq<string>, i: nat)
    requires i < |names|
    ensures var m := Counters(names[..i]);
      Counters(names[..i + 1]) == if names[i] in m then m[names[i] := m[names[i]] + 1] else m[names[i] := 0]
  {
    assert names[..i + 1][..i] == names[..i];
  }

  /** How many files before index i have the base name of file i: the counter file i meets. */
  function PriorCount(files: seq<FileInfo>, i: nat): nat
    requires i < |files|
  {
    Occurrences(BaseNames(files)[..i], Base(files[i].path))
  }

  /** Where file i of a call goes: its bucket, joined with its possibly renamed base name. */
  function Destination(targetDir: string, files: seq<FileInfo>, i: nat): string
    requires i < |files|
  {
    Join(Bucket(targetDir, files[i].creationDate), DestName(Base(files[i].path), PriorCount(files, i)))
  }

  /**
   * The destination is the bucket joined with the file's base name when no earlier file had
   * that base name, and otherwise with the base name renamed with the number of earlier
   * files that had it: test.gif, then test_1.gif, then test_2.gif. For a plain base name the
   * joined path is bucket/name.
   */
  lemma DestinationNaming(targetDir: string, files: seq<FileInfo>, i: nat)
    requires i < |files|
    ensures var bucket, base := Bucket(targetDir, files[i].creationDate), Base(files[i].path);
      && ((forall l :: 0 <= l < i ==> Base(files[l].path) != base)
            ==> Destination(targetDir, files, i) == Join(bucket, base))
      && ((exists l :: 0 <= l < i && Base(files[l].path) == base)
            ==> PriorCount(files, i) >= 1
                && Destination(targetDir, files, i) == Join(bucket, Renamed(base, PriorCount(files, i))))
      && (PlainName(base) ==> Destination(targetDir, files, i) == bucket + "/" + DestName(base, PriorCount(files, i)))
  {
    PriorCountZero(files, i);
    if PlainName(Base(files[i].path)) {
      DestinationJoin(targetDir, files, i);
    }
  }

  lemma DestinationJoin(targetDir: string, files: seq<FileInfo>, i: nat)
    requires i < |files| && PlainName(Base(files[i].path))
    ensures Destination(targetDir, files, i)
      == Bucket(targetDir, files[i].creationDate) + "/" + DestName(Base(files[i].path), PriorCount(files, i))
  {
    var bucket, name := Bucket(targetDir, files[i].creationDate), DestName(Base(files[i].path), PriorCount(files, i));
    DestNamePlain(Base(files[i].path), PriorCount(files, i));
    BucketIsClean(targetDir, files[i].creationDate);
    JoinPlainName(bucket, name);
  }

  /** No earlier file has the base name of file i exactly when its counter is zero. */
  lemma PriorCountZero(files: seq<FileInfo>, i: nat)
    requires i < |files|
    ensures PriorCount(files, i) == 0 <==> forall l :: 0 <= l < i ==> Base(files[l].path) != Base(files[i].path)
  {
    var names := BaseNames(files);
    OccurrencesZero(names[..i], Base(files[i].path));
    assert forall l :: 0 <= l < i ==> names[..i][l] == Base(files[l].path);
  }

  /** A later file with the same base name meets a higher counter. */
  lemma PriorCountIncreases(files: seq<FileInfo>, i: nat, j: nat)
    requires i < j < |files|
    requires Base(files[i].path) == Base(files[j].path)
    ensures PriorCount(files, i) < PriorCount(files, j)
  {
    var names := BaseNames(files);
    OccurrencesStep(names, i, Base(files[i].path));
    OccurrencesMonotone(names, i + 1, j, Base(files[i].path));
  }

  /** The tag "_k" has no '/'. */
  lemma TagHasNoSlash(k: int)
    ensures NoSlash(Tag(k))
  {
    var t := Tag(k);
    ItoaHasNoSlash(k);
    forall j | 1 <= j < |t|
      ensures t[j] != '/'
    {
      assert t[j] == Itoa(k)[j - 1];
    }
  }

  lemma NoSlashSplice(a: string, t: string, b: string)
    requires NoSlash(a) && NoSlash(t) && NoSlash(b)
    ensures NoSlash(a + t + b)
  {
    var r := a + t + b;
    forall j | 0 <= j < |r|
      ensures r[j] != '/'
    {
      if j < |a| {
        assert r[j] == a[j];
      } else if j < |a| + |t| {
        assert r[j] == t[j - |a|];
      } else {
        assert r[j] == b[j - |a| - |t|];
      }
    }
  }

  /** Renaming a plain name gives a plain name, so the renamed file stays in its bucket. */
  lemma DestNamePlain(base: string, k: nat)
    requires PlainName(base)
    ensures PlainName(DestName(base, k))
  {
    if k > 0 {
      RenamedShape(base, k);
      TagHasNoSlash(k);
      var i := Index(base, Ext(base));
      var pre, post := base[..i], base[i..];
      assert NoSlash(pre) by {
        forall j | 0 <= j < |pre| ensures pre[j] != '/' { assert pre[j] == base[j]; }
      }
      assert NoSlash(post) by {
        forall j | 0 <= j < |post| ensures post[j] != '/' { assert post[j] == base[i + j]; }
      }
      NoSlashSplice(pre, Tag(k), post);
      assert |Renamed(base, k)| >= 3;
    }
  }

  /**
   * Two files with the same plain base name in the same bucket never get the same
   * destination.
   */
  lemma SameBaseSameBucketDistinct(targetDir: string, files: seq<FileInfo>, i: nat, j: nat)
    requires i < j < |files|
    requires Base(files[i].path) == Base(files[j].path) && PlainName(Base(files[i].path))
    requires Bucket(targetDir, files[i].creationDate) == Bucket(targetDir, files[j].creationDate)
    ensures Destination(targetDir, files, i) != Destination(targetDir, files, j)
  {
    var base := Base(files[i].path);
    var bucket := Bucket(targetDir, files[i].creationDate);
    var a, b := PriorCount(files, i), PriorCount(files, j);
    PriorCountIncreases(files, i, j);
    DestNamePlain(base, a);
    DestNamePlain(base, b);
    if Destination(targetDir, files, i) == Destination(targetDir, files, j) {
      JoinInjective(bucket, DestName(base, a), DestName(base, b));
      DestNameInjective(base, a, b);
    }
  }

  /** A name with a dot-free stem is renamed by inserting "_k" right after the stem. */
  lemma RenamedAfterStem(stem: string, rest: string, k: int)
    requires forall i :: 0 <= i < |stem| ==> stem[i] != '.'
    requires Ext(stem + rest) != [] && |Ext(stem + rest)| <= |rest|
    requires rest[..|Ext(stem + rest)|] == Ext(stem + rest)
    ensures Renamed(stem + rest, k) == stem + Tag(k) + rest
  {
    var name, e := stem + rest, Ext(stem + rest);
    assert name[|stem|..|stem| + |e|] == rest[..|e|];
    assert OccursAt(name, e, |stem|);
    forall l | 0 <= l < |stem|
      ensures !OccursAt(name, e, l)
    {
      assert name[l] == stem[l];
    }
    IndexAt(name, e, |stem|);
    RenamedShape(name, k);
    assert name[..|stem|] == stem && name[|stem|..] == rest;
  }

  /** A dotted extension without further dots or slashes. */
  predicate IsExt(ext: string) {
    ext != [] && ext[0] == '.' && forall i :: 0 < i < |ext| ==> ext[i] != '.' && ext[i] != '/'
  }

  /** test.gif repeated becomes test_1.gif. */
  lemma RenamedSimple(stem: string, ext: string, k: int)
    requires forall i :: 0 <= i < |stem| ==> stem[i] != '.'
    requires IsExt(ext)
    ensures Renamed(stem + ext, k) == stem + Tag(k) + ext
  {
    ExtOfDotted(stem, ext);
    assert ext[..|ext|] == ext;
    RenamedAfterStem(stem, ext, k);
  }

  /** The first occurrence of the extension text is renamed: a.jpg.jpg becomes a_1.jpg.jpg. */
  lemma RenamedRepeatedExt(stem: string, ext: string, k: int)
    requires forall i :: 0 <= i < |stem| ==> stem[i] != '.'
    requires IsExt(ext)
    ensures Renamed(stem + (ext + ext), k) == stem + Tag(k) + (ext + ext)
  {
    assert stem + (ext + ext) == (stem + ext) + ext;
    ExtOfDotted(stem + ext, ext);
    assert (ext + ext)[..|ext|] == ext;
    RenamedAfterStem(stem, ext + ext, k);
  }

  /** Without an extension the tag becomes a prefix: README becomes _1README. */
  lemma RenamedUndotted(name: string, k: int)
    requires forall i :: 0 <= i < |name| ==> name[i] != '.'
    ensures Renamed(name, k) == Tag(k) + name
  {
    ExtOfUndotted(name);
    RenamedShape(name, k);
    assert name[..0] == [] && name[0..] == name;
  }

  /**
   * Destinations need not be unique: the second stem.ext is renamed stem_1.ext, which a
   * file already called stem_1.ext in the same month also gets, because generated names
   * are not counted.
   */
  lemma DestinationsMayCollide(targetDir: string, a: string, b: string, c: string, stem: string, ext: string, d: Date)
    requires a != [] && a[|a| - 1] == '/' && b != [] && b[|b| - 1] == '/' && c != [] && c[|c| - 1] == '/'
    requires NoSlash(stem) && (forall i :: 0 <= i < |stem| ==> stem[i] != '.') && IsExt(ext)
    ensures var n1, n2 := stem + ext, stem + Tag(1) + ext;
      var files := [FileInfo(a + n1, d), FileInfo(b + n1, d), FileInfo(c + n2, d)];
      Destination(targetDir, files, 1) == Destination(targetDir, files, 2)
  {
    var n1, n2 := stem + ext, stem + Tag(1) + ext;
    CollidingNames(stem, ext);
    var files := [FileInfo(a + n1, d), FileInfo(b + n1, d), FileInfo(c + n2, d)];
    BaseOfName(a, n1);
    BaseOfName(b, n1);
    BaseOfName(c, n2);
    BaseNamesOfThree(files, n1, n2);
    CollidingCounts(BaseNames(files), n1, n2);
    PriorCountAt(files, 1);
    PriorCountAt(files, 2);
    SecondNameIsThird(stem, ext);
    SameDestination(targetDir, files, 1, 2);
  }

  /** stem.ext and stem_1.ext are two different names without '/'. */
  lemma CollidingNames(stem: string, ext: string)
    requires NoSlash(stem) && IsExt(ext)
    ensures var n1, n2 := stem + ext, stem + Tag(1) + ext;
      n1 != [] && n2 != [] && NoSlash(n1) && NoSlash(n2) && n1 != n2
  {
    var n1, n2 := stem + ext, stem + Tag(1) + ext;
    assert NoSlash(ext);
    TagHasNoSlash(1);
    NoSlashSplice(stem, [], ext);
    NoSlashSplice(stem, Tag(1), ext);
    assert stem + [] + ext == n1;
    assert |n1| != |n2|;
  }

  /** The renamed second stem.ext is the name of a file already called stem_1.ext. */
  lemma SecondNameIsThird(stem: string, ext: string)
    requires (forall i :: 0 <= i < |stem| ==> stem[i] != '.') && IsExt(ext)
    ensures DestName(stem + ext, 1) == DestName(stem + Tag(1) + ext, 0)
  {
    RenamedSimple(stem, ext, 1);
  }

  /** Two files of one month with the same final name share a destination. */
  lemma SameDestination(targetDir: string, files: seq<FileInfo>, i: nat, j: nat)
    requires i < |files| && j < |files| && files[i].creationDate == files[j].creationDate
    requires DestName(Base(files[i].path), PriorCount(files, i)) == DestName(Base(files[j].path), PriorCount(files, j))
    ensures Destination(targetDir, files, i) == Destination(targetDir, files, j)
  {
  }

  /** In the colliding call the second file counts one earlier stem.ext and the third none. */
  lemma CollidingCounts(names: seq<string>, n1: string, n2: string)
    requires n1 != n2 && names == [n1, n1, n2]
    ensures Occurrences(names[..1], names[1]) == 1 && Occurrences(names[..2], names[2]) == 0
  {
    assert names[..1] == [n1];
    assert names[..2] == [n1, n1];
    CollidingOccurrences(n1, n2);
  }

  lemma BaseNamesOfThree(files: seq<FileInfo>, n1: string, n2: string)
    requires |files| == 3
    requires Base(files[0].path) == n1 && Base(files[1].path) == n1 && Base(files[2].path) == n2
    ensures BaseNames(files) == [n1, n1, n2]
  {
  }

  lemma PriorCountAt(files: seq<FileInfo>, i: nat)
    requires i < |files|
    ensures PriorCount(files, i) == Occurrences(BaseNames(files)[..i], BaseNames(files)[i])
  {
  }

  lemma CollidingOccurrences(n1: string, n2: string)
    requires n1 != n2
    ensures Occurrences([n1], n1) == 1 && Occurrences([n1, n1], n2) == 0
  {
    assert [n1][..0] == [] && [n1, n1][..1] == [n1];
  }

  // ---------------------------------------------------------------- operationType and the plan

  /** operationType: MOVE for a file created strictly before the cutoff, COPY otherwise. */
  function OperationType(f: FileInfo, cutoff: Date): (r: OpType)
    ensures r == Move <==> Before(f.creationDate, cutoff)
  {
    if Before(f.creationDate, cutoff) then Move else Copy
  }

  /** COPY exactly for files created at the cutoff or after it. */
  lemma CopyFromCutoffOn(f: FileInfo, cutoff: Date)
    ensures OperationType(f, cutoff) == Copy <==> f.creationDate == cutoff || Before(cutoff, f.creationDate)
    ensures OperationType(f, cutoff) == Move <==> Before(f.creationDate, cutoff)
  {
    BeforeIsStrictTotalOrder(f.creationDate, cutoff, cutoff);
  }

  /** With a cutoff some months back from now, a file created now is copied, and a moved one is older than now. */
  lemma RecentFilesAreCopied(f: FileInfo, now: Date, n: int)
    requires n > 0
    ensures f.creationDate == now ==> OperationType(f, RemoveMonths(now, n)) == Copy
    ensures OperationType(f, RemoveMonths(now, n)) == Move ==> Before(f.creationDate, now)
  {
    var cutoff := RemoveMonths(now, n);
    RemoveMonthsIsEarlier(now, n);
    BeforeIsStrictTotalOrder(cutoff, now, now);
    BeforeIsStrictTotalOrder(f.creationDate, cutoff, now);
  }

  /**
   * One step of the counter map at file i: file i is renamed exactly when its base name is
   * already a key, and then with the stored counter plus one.
   */
  lemma CounterStep(files: seq<FileInfo>, i: nat)
    requires i < |files|
    ensures var names, key := BaseNames(files), Base(files[i].path);
      var m := Counters(names[..i]);
      && Counters(names[..i + 1]) == (if key in m then m[key := m[key] + 1] else m[key := 0])
      && (key in m <==> PriorCount(files, i) > 0)
      && (key in m ==> m[key] + 1 == PriorCount(files, i))
  {
    var names := BaseNames(files);
    assert names[i] == Base(files[i].path);
    CountersSnoc(names, i);
    CountersCount(names[..i]);
  }

  /** The operation PrepareCopy plans for file i, with abs standing for filepath.Abs. */
  function Operation(targetDir: string, files: seq<FileInfo>, i: nat, cutoff: Date, abs: string -> string): FileOperation
    requires i < |files|
  {
    FileOperation(abs(files[i].path), Destination(targetDir, files, i), OperationType(files[i], cutoff))
  }

  /** The sequence f(0), ..., f(n - 1), built by appending one element at a time. */
  function Tabulate<T>(n: nat, f: nat --> T): (s: seq<T>)
    requires forall i :: 0 <= i < n ==> f.requires(i)
    ensures |s| == n
  {
    if n == 0 then [] else Tabulate(n - 1, f) + [f(n - 1)]
  }

  lemma {:induction false} TabulateEntries<T>(n: nat, f: nat --> T)
    requires forall i :: 0 <= i < n ==> f.requires(i)
    ensures forall i :: 0 <= i < n ==> Tabulate(n, f)[i] == f(i)
  {
    if n > 0 {
      TabulateEntries(n - 1, f);
      var p := Tabulate(n - 1, f);
      forall i | 0 <= i < n - 1
        ensures (p + [f(n - 1)])[i] == f(i)
      {
        assert (p + [f(n - 1)])[i] == p[i];
      }
    }
  }

  lemma {:induction false} TabulatePrefix<T>(n: nat, m: nat, f: nat --> T)
    requires n <= m
    requires forall i :: 0 <= i < m ==> f.requires(i)
    ensures Tabulate(n, f) == Tabulate(m, f)[..n]
  {
    TabulateEntries(n, f);
    TabulateEntries(m, f);
  }

  lemma TabulateAgree<T>(n: nat, f: nat --> T, g: nat --> T)
    requires forall i :: 0 <= i < n ==> f.requires(i) && g.requires(i) && f(i) == g(i)
    ensures Tabulate(n, f) == Tabulate(n, g)
  {
    TabulateEntries(n, f);
    TabulateEntries(n, g);
  }

  /** The operation of file i of the call, for each file of the call (a placeholder past the last). */
  function Operations(targetDir: string, files: seq<FileInfo>, cutoff: Date, abs: string -> string): nat -> FileOperation {
    (i: nat) => if i < |files| then Operation(targetDir, files, i, cutoff, abs) else FileOperation([], [], Copy)
  }

  /**
   * The plan for the first i + 1 files is the plan for the first i and the
   * operation for file i, whose destination is dest.
   */
  lemma PlanStep(targetDir: string, files: seq<FileInfo>, i: nat, cutoff: Date, abs: string -> string,
                 plan: seq<FileOperation>, dest: string)
    requires i < |files|
    requires plan == Tabulate(i, Operations(targetDir, files, cutoff, abs))
    requires dest == Destination(targetDir, files, i)
    ensures plan + [FileOperation(abs(files[i].path), dest, OperationType(files[i], cutoff))]
      == Tabulate(i + 1, Operations(targetDir, files, cutoff, abs))
  {
    var op := FileOperation(abs(files[i].path), dest, OperationType(files[i], cutoff));
    assert Operations(targetDir, files, cutoff, abs)(i) == op;
    TabulateStep(i, Operations(targetDir, files, cutoff, abs), op);
  }

  /** Destination i is the bucket joined with the name the counter gives file i. */
  lemma DestinationIs(targetDir: string, files: seq<FileInfo>, i: nat, name: string)
    requires i < |files|
    requires name == DestName(Base(files[i].path), PriorCount(files, i))
    ensures Destination(targetDir, files, i) == Join(Bucket(targetDir, files[i].creationDate), name)
  {
  }

  lemma TabulateStep<T>(n: nat, f: nat --> T, x: T)
    requires forall i :: 0 <= i <= n ==> f.requires(i)
    requires f(n) == x
    ensures Tabulate(n, f) + [x] == Tabulate(n + 1, f)
  {
  }

  /** The FileOperations of the manifest, one per file in input order. */
  function Plan(targetDir: string, files: seq<FileInfo>, cutoff: Date, abs: string -> string): seq<FileOperation> {
    Tabulate(|files|, Operations(targetDir, files, cutoff, abs))
  }

  /**
   * The plan has one operation per file, in input order: operation i copies or moves
   * Abs(path of file i) to its destination, as MOVE exactly when file i predates the cutoff.
   */
  lemma PlanEntries(targetDir: string, files: seq<FileInfo>, cutoff: Date, abs: string -> string)
    ensures |Plan(targetDir, files, cutoff, abs)| == |files|
    ensures forall i :: 0 <= i < |files| ==>
      && Plan(targetDir, files, cutoff, abs)[i].from == abs(files[i].path)
      && Plan(targetDir, files, cutoff, abs)[i].to == Destination(targetDir, files, i)
      && (Plan(targetDir, files, cutoff, abs)[i].opType == Move <==> Before(files[i].creationDate, cutoff))
  {
    var plan, f := Plan(targetDir, files, cutoff, abs), Operations(targetDir, files, cutoff, abs);
    TabulateEntries(|files|, f);
    forall i | 0 <= i < |files|
      ensures plan[i] == Operation(targetDir, files, i, cutoff, abs)
    {
      assert plan[i] == f(i);
    }
  }

  /** What the plan says about file i depends only on the files up to i. */
  lemma OperationOfPrefix(targetDir: string, files: seq<FileInfo>, more: seq<FileInfo>, i: nat, cutoff: Date, abs: string -> string)
    requires i < |files|
    ensures Operation(targetDir, files, i, cutoff, abs) == Operation(targetDir, files + more, i, cutoff, abs)
  {
    var all := files + more;
    assert all[i] == files[i];
    assert BaseNames(all)[..i] == BaseNames(files)[..i];
    assert PriorCount(all, i) == PriorCount(files, i);
  }

  /** Planning more files only adds operations at the end: no earlier operation changes. */
  lemma PlanIsPrefixClosed(targetDir: string, files: seq<FileInfo>, more: seq<FileInfo>, cutoff: Date, abs: string -> string)
    ensures Plan(targetDir, files, cutoff, abs) == Plan(targetDir, files + more, cutoff, abs)[..|files|]
  {
    var f, g := Operations(targetDir, files, cutoff, abs), Operations(targetDir, files + more, cutoff, abs);
    TabulatePrefix(|files|, |files + more|, g);
    forall i | 0 <= i < |files|
      ensures f(i) == g(i)
    {
      OperationOfPrefix(targetDir, files, more, i, cutoff, abs);
    }
    TabulateAgree(|files|, f, g);
  }

  /**
   * The renaming block of PrepareCopy and CopyFilesTo, for the file at path, which is file i
   * of the call: look its base name up in the counter map, store 0 for a new name or the
   * counter plus one for a repeat, and on a repeat rename with that counter.
   */
  method NextName(path: string, copiedFileNames: map<string, int>, ghost files: seq<FileInfo>, ghost i: nat)
    returns (fileName: string, counters: map<string, int>)
    requires i < |files| && path == files[i].path
    requires copiedFileNames == Counters(BaseNames(files)[..i])
    ensures fileName == DestName(Base(path), PriorCount(files, i))
    ensures counters == Counters(BaseNames(files)[..i + 1])
  {
    CounterStep(files, i);
    ghost var k := PriorCount(files, i);
    var key := Base(path);
    fileName := key;
    counters := copiedFileNames;
    if key in counters {
      var val := counters[key];
      counters := counters[key := val + 1];
      assert val + 1 == k && "_" + Itoa(val + 1) == Tag(k);
      fileName := ReplaceFirst(fileName, Ext(fileName), "_" + Itoa(val + 1) + Ext(fileName));
      assert fileName == Renamed(key, k);
    } else {
      counters := counters[key := 0];
      assert k == 0;
    }
  }

  /**
   * PrepareCopy without the manifest write: the loop over the files, with the per-call map
   * from base name to the counter of its last rename (0 after the first occurrence).
   */
  method PrepareCopy(targetDir: string, files: seq<FileInfo>, cutoff: Date, abs: string -> string)
    returns (plan: seq<FileOperation>)
    ensures plan == Plan(targetDir, files, cutoff, abs)
  {
    var copiedFileNames: map<string, int> := map[];
    plan := [];
    var i := 0;
    ghost var ops := Operations(targetDir, files, cutoff, abs);
    while i < |files|
      invariant 0 <= i <= |files|
      invariant plan == Tabulate(i, ops)
      invariant copiedFileNames == Counters(BaseNames(files)[..i])
    {
      var fileToCopy := files[i];
      var destinationPath := Bucket(targetDir, fileToCopy.creationDate);
      var fileName;
      fileName, copiedFileNames := NextName(fileToCopy.path, copiedFileNames, files, i);
      var absolutePath := abs(fileToCopy.path);
      var opType := OperationType(fileToCopy, cutoff);
      DestinationIs(targetDir, files, i, fileName);
      PlanStep(targetDir, files, i, cutoff, abs, plan, Join(destinationPath, fileName));
      plan := plan + [FileOperation(absolutePath, Join(destinationPath, fileName), opType)];
      i := i + 1;
    }
  }
}
