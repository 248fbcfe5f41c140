/** Item names and directory paths: the rules a name must meet, look-ups ignoring case,
    and paths as sequences of segments. */
module Names {

  function LowerChar(c: char): char {
    if 'A' <= c <= 'Z' then c + 32 as char else c
  }

  function Lower(s: string): string {
    seq(|s|, i requires 0 <= i < |s| => LowerChar(s[i]))
  }

  const MAX_DIR_PATH_LEN: nat := 512
  const MAX_SEGMENTS: nat := 500
  const MAX_NORMAL_PATH_LEN: nat := 500
  const MAX_ITEM_NAME_LEN: nat := 255

  /** Up to the first dot. */
  function Base(name: string): string {
    if name == [] || name[0] == '.' then [] else [name[0]] + Base(name[1..])
  }

  predicate Reserved(base: string) {
    var low := Lower(base);
    || low == "con" || low == "prn" || low == "aux" || low == "nul"
    || (|low| == 4 && (low[..3] == "com" || low[..3] == "lpt") && '1' <= low[3] <= '9')
  }

  predicate BadChar(c: char) {
    c < 0x20 as char || c == 0x7F as char || c in "/\\:*?\"<>|"
  }

  /** A name a file or folder may have. */
  predicate ValidName(name: string) {
    && 0 < |name| <= MAX_ITEM_NAME_LEN
    && (forall i | 0 <= i < |name| :: !BadChar(name[i]))
    && name[|name| - 1] != '.' && name[|name| - 1] != ' '
    && !Reserved(Base(name))
  }

  /** The name check as the program makes it, test by test. */
  method ValidateItemName(name: string) returns (ok: bool)
    ensures ok <==> ValidName(name)
  {
    hide Reserved, BadChar, Base;
    if name == "" || |name| > MAX_ITEM_NAME_LEN {
      return false;
    }
    ok := NoBadChar(name);
    if !ok {
      return false;
    }
    var last := name[|name| - 1];
    if last == '.' || last == ' ' {
      return false;
    }
    var n := FirstDot(name);
    ok := !Reserved(name[..n]);
  }

  method NoBadChar(name: string) returns (ok: bool)
    ensures ok <==> forall i | 0 <= i < |name| :: !BadChar(name[i])
  {
    if i :| 0 <= i < |name| && name[i] in "/\\" {
      assert BadChar(name[i]);
      return false;
    }
    for i := 0 to |name|
      invariant forall k | 0 <= k < i :: !BadChar(name[k])
    {
      if name[i] < 0x20 as char || name[i] == 0x7F as char || name[i] in ":*?\"<>|" {
        assert BadChar(name[i]);
        return false;
      }
    }
    return true;
  }

  method FirstDot(name: string) returns (n: nat)
    ensures n <= |name| && name[..n] == Base(name)
  {
    n := 0;
    while n < |name| && name[n] != '.'
      invariant n <= |name| && Base(name) == name[..n] + Base(name[n..])
    {
      assert name[n..][1..] == name[n + 1..] && name[..n + 1] == name[..n] + [name[n]];
      n := n + 1;
    }
  }

  lemma {:induction false} BaseBeforeDot(stem: string, rest: string)
    requires '.' !in stem && (rest == "" || rest[0] == '.')
    ensures Base(stem + rest) == stem
  {
    if stem != "" {
      assert stem[0] in stem;
      assert (stem + rest)[1..] == stem[1..] + rest;
      forall c | c in stem[1..] ensures c in stem {
      }
      BaseBeforeDot(stem[1..], rest);
      assert [stem[0]] + stem[1..] == stem;
    } else {
      assert "" + rest == rest;
    }
  }

  /** The device names: four alone, two with a digit from 1 to 9. */
  lemma DeviceNames(base: string)
    ensures Reserved(base)
            <==> Lower(base) in ["con", "prn", "aux", "nul"]
                 || exists kind, digit | kind in ["com", "lpt"] && digit in "123456789" :: Lower(base) == kind + [digit]
  {
    hide Lower;
    var low := Lower(base);
    if |low| == 4 && '1' <= low[3] <= '9' && low[..3] in ["com", "lpt"] {
      assert low[3] in "123456789" && low == low[..3] + [low[3]];
    }
    forall kind, digit | kind in ["com", "lpt"] && digit in "123456789" && low == kind + [digit] ensures Reserved(base) {
      assert |kind| == 3 && low[..3] == kind && low[3] == digit;
    }
  }

  /** Which names are valid: not empty, at most 255 characters, none of them a control
      character or one of the nine that Windows forbids, no dot or space at the end, and
      what comes before the first dot is no device name in any case. */
  lemma ValidNameExactly(stem: string, rest: string)
    requires '.' !in stem && (rest == "" || rest[0] == '.')
    ensures ValidName(stem + rest) <==>
              && 1 <= |stem + rest| <= 255
              && (forall c | c in stem + rest :: ' ' <= c && c != '\U{7F}' && c !in ['/', '\\', ':', '*', '?', '"', '<', '>', '|'])
              && (stem + rest)[|stem + rest| - 1] !in ['.', ' ']
              && Lower(stem) !in ["con", "prn", "aux", "nul"]
              && forall kind, digit | kind in ["com", "lpt"] && digit in "123456789" :: Lower(stem) != kind + [digit]
  {
    BaseBeforeDot(stem, rest);
    DeviceNames(stem);
    hide Base, Reserved, Lower;
    var name := stem + rest;
    forall i | 0 <= i < |name|
      ensures !BadChar(name[i]) <==> ' ' <= name[i] && name[i] != '\U{7F}' && name[i] !in ['/', '\\', ':', '*', '?', '"', '<', '>', '|']
      ensures name[i] in name
    {
    }
  }

  /** Two names are the same ignoring case exactly if they differ in the case of English
      letters only. */
  lemma SameNameExactly(a: string, b: string)
    ensures Lower(a) == Lower(b)
            <==> |a| == |b| && forall i | 0 <= i < |a| ::
                   a[i] == b[i] || ('A' <= a[i] <= 'Z' && b[i] as int == a[i] as int + 32) || ('A' <= b[i] <= 'Z' && a[i] as int == b[i] as int + 32)
  {
    if Lower(a) == Lower(b) {
      assert |Lower(a)| == |a| && |Lower(b)| == |b|;
      forall i | 0 <= i < |a|
        ensures a[i] == b[i] || ('A' <= a[i] <= 'Z' && b[i] as int == a[i] as int + 32) || ('A' <= b[i] <= 'Z' && a[i] as int == b[i] as int + 32)
      {
        assert Lower(a)[i] == Lower(b)[i];
      }
    }
  }

  // ----- paths -----

  function Split(s: string): (segs: seq<string>)
    ensures |segs| > 0
  {
    if s == [] then [[]]
    else if s[0] == '/' then [[]] + Split(s[1..])
    else
      var rest := Split(s[1..]);
      [[s[0]] + rest[0]] + rest[1..]
  }

  function Join(segs: seq<string>): string {
    if segs == [] then []
    else if |segs| == 1 then segs[0]
    else segs[0] + "/" + Join(segs[1..])
  }

  lemma {:induction false} JoinSplit(s: string)
    ensures Join(Split(s)) == s
  {
    if s != [] {
      var rest := Split(s[1..]);
      JoinSplit(s[1..]);
      if s[0] == '/' {
        assert Split(s)[1..] == rest;
        assert Join(Split(s)) == [] + "/" + Join(rest);
      } else {
        assert Split(s)[1..] == rest[1..];
        assert s == [s[0]] + s[1..];
      }
    }
  }

  /** A segment before a slash is split off whole. */
  lemma {:induction false} SplitFirst(seg: string, tail: string)
    requires '/' !in seg
    ensures Split(seg + "/" + tail) == [seg] + Split(tail)
    ensures Split(seg) == [seg]
  {
    if seg == [] {
      assert seg + "/" + tail == "/" + tail;
      assert ("/" + tail)[1..] == tail;
    } else {
      var s := seg + "/" + tail;
      assert s[1..] == seg[1..] + "/" + tail;
      assert seg[0] in seg;
      forall c | c in seg[1..] ensures c in seg {
      }
      SplitFirst(seg[1..], tail);
      assert [seg[0]] + seg[1..] == seg;
    }
  }

  lemma {:induction false} SplitJoin(segs: seq<string>)
    requires |segs| > 0 && forall i | 0 <= i < |segs| :: '/' !in segs[i]
    ensures Split(Join(segs)) == segs
  {
    if |segs| == 1 {
      SplitFirst(segs[0], []);
    } else {
      forall i | 0 <= i < |segs[1..]| ensures '/' !in segs[1..][i] {
        assert segs[1..][i] == segs[i + 1];
      }
      SplitJoin(segs[1..]);
      SplitFirst(segs[0], Join(segs[1..]));
    }
  }

  lemma {:induction false} SplitHasNoSlash(s: string)
    ensures forall i | 0 <= i < |Split(s)| :: '/' !in Split(s)[i]
  {
    if s != [] {
      SplitHasNoSlash(s[1..]);
    }
  }

  lemma {:induction false} JoinLength(segs: seq<string>)
    requires forall i | 0 <= i < |segs| :: |segs[i]| > 0
    ensures segs != [] ==> |Join(segs)| >= 2 * |segs| - 1
  {
    if |segs| > 1 {
      JoinLength(segs[1..]);
    }
  }

  function SlashCount(s: string): nat {
    if s == [] then 0 else (if s[0] == '/' then 1 else 0) + SlashCount(s[1..])
  }

  lemma {:induction false} SplitCounts(s: string)
    ensures |Split(s)| == SlashCount(s) + 1
  {
    if s != [] {
      SplitCounts(s[1..]);
    }
  }

  function TrimLeft(p: string): string {
    if p != [] && p[0] == '/' then TrimLeft(p[1..]) else p
  }

  function TrimRight(p: string): string {
    if p != [] && p[|p| - 1] == '/' then TrimRight(p[..|p| - 1]) else p
  }

  predicate PlainSegment(s: string) {
    s != "" && s != "." && s != ".."
  }

  datatype PathResult = Path(path: string) | BadPath

  /** The write paths' normal form: "/" for the root, otherwise segments joined by single
      slashes without a slash at either end. */
  method NormalizeDirPath(p: string) returns (r: PathResult)
    ensures r == Normal(p)
  {
    hide Split, TrimLeft, TrimRight, Join, PlainSegment;
    if p == "" || p == "/" {
      return Path("/");
    }
    r := PutTogether(Split(TrimRight(TrimLeft(p))));
  }

  /** The segments joined again, if none of them is empty, "." or "..". */
  method PutTogether(segs: seq<string>) returns (r: PathResult)
    requires |segs| > 0
    ensures r == if (forall i | 0 <= i < |segs| :: PlainSegment(segs[i])) && |Join(segs)| <= MAX_NORMAL_PATH_LEN then Path(Join(segs))
                 else BadPath
  {
    hide Join, PlainSegment;
    var out: string := "";
    var i := 0;
    JoinNothing();
    assert segs[..0] == [];
    while i < |segs|
      invariant 0 <= i <= |segs|
      invariant forall k | 0 <= k < i :: PlainSegment(segs[k])
      invariant out == Join(segs[..i])
    {
      if !PlainSegment(segs[i]) {
        return BadPath;
      }
      JoinUpTo(segs, i);
      out := AppendSegment(out, segs[i]);
      i := i + 1;
    }
    assert segs[..|segs|] == segs;
    if |out| > MAX_NORMAL_PATH_LEN {
      return BadPath;
    }
    return Path(out);
  }

  method AppendSegment(out0: string, seg: string) returns (out: string)
    ensures out == if out0 == "" then seg else out0 + "/" + seg
  {
    out := out0;
    if |out| > 0 {
      out := out + "/";
    }
    out := out + seg;
  }

  lemma {:induction false} JoinMore(segs: seq<string>, s: string)
    ensures Join(segs + [s]) == if segs == [] then s else Join(segs) + "/" + s
  {
    if |segs| > 0 {
      assert (segs + [s])[1..] == segs[1..] + [s];
      JoinMore(segs[1..], s);
      if |segs| > 1 {
        assert Join(segs + [s]) == segs[0] + "/" + (Join(segs[1..]) + "/" + s);
        assert Join(segs) + "/" + s == segs[0] + "/" + Join(segs[1..]) + "/" + s;
      }
    }
  }

  lemma JoinNothing()
    ensures Join([]) == ""
  {
  }

  lemma JoinUpTo(segs: seq<string>, i: nat)
    requires i < |segs| && (i > 0 ==> PlainSegment(segs[0]))
    ensures Join(segs[..i]) == "" <==> i == 0
    ensures Join(segs[..i + 1]) == if i == 0 then segs[0] else Join(segs[..i]) + "/" + segs[i]
  {
    hide Join;
    JoinMore(segs[..i], segs[i]);
    assert segs[..i + 1] == segs[..i] + [segs[i]];
    if i > 0 {
      assert segs[..i][0] == segs[0];
      JoinNotEmpty(segs[..i]);
    } else {
      assert segs[..0] == [];
      JoinNothing();
    }
  }

  lemma JoinNotEmpty(segs: seq<string>)
    requires |segs| > 0 && segs[0] != ""
    ensures Join(segs) != ""
  {
  }

  /** The normal form as a property: the joined segments of the trimmed path. */
  function Normal(p: string): PathResult {
    if p == "" || p == "/" then Path("/")
    else
      var segs := Split(TrimRight(TrimLeft(p)));
      if (forall i | 0 <= i < |segs| :: PlainSegment(segs[i])) && |Join(segs)| <= MAX_NORMAL_PATH_LEN then Path(Join(segs))
      else BadPath
  }

  lemma {:induction false} NoSlashEnds(segs: seq<string>)
    requires |segs| > 0 && forall i | 0 <= i < |segs| :: PlainSegment(segs[i]) && '/' !in segs[i]
    ensures |Join(segs)| > 0 && Join(segs)[0] != '/' && Join(segs)[|Join(segs)| - 1] != '/'
  {
    assert segs[0][0] in segs[0] && segs[0][|segs[0]| - 1] in segs[0];
    if |segs| > 1 {
      NoSlashEnds(segs[1..]);
    }
  }

  lemma {:induction false} TrimSlash(p: string)
    ensures TrimLeft("/" + p) == TrimLeft(p)
    ensures TrimLeft(p + "/") == if TrimLeft(p) == "" then "" else TrimLeft(p) + "/"
  {
    assert ("/" + p)[1..] == p;
    if p != "" && p[0] == '/' {
      TrimSlash(p[1..]);
      assert (p + "/")[1..] == p[1..] + "/";
    } else if p == "" {
      assert "/"[1..] == "";
    }
  }

  lemma TrimEnds(p: string)
    ensures TrimRight(TrimLeft("/" + p)) == TrimRight(TrimLeft(p))
    ensures TrimRight(TrimLeft(p + "/")) == TrimRight(TrimLeft(p))
  {
    TrimSlash(p);
    var core := TrimLeft(p);
    assert (core + "/")[..|core|] == core;
  }

  /** Normal paths are fixed points, and slashes at the ends do not matter: "dir/sub",
      "/dir/sub" and "dir/sub/" are one directory. */
  lemma NormalIsIdempotent(p: string)
    requires Normal(p).Path?
    ensures Normal(Normal(p).path) == Normal(p)
    ensures p != "" && p != "/" ==> Normal("/" + p) == Normal(p) && Normal(p + "/") == Normal(p)
  {
    if p != "" && p != "/" {
      TrimEnds(p);
      var segs := Split(TrimRight(TrimLeft(p)));
      var out := Join(segs);
      SplitHasNoSlash(TrimRight(TrimLeft(p)));
      NoSlashEnds(segs);
      SplitJoin(segs);
    }
  }

  /** Which paths are rejected, said of their segments: an empty one, "." or ".." anywhere,
      or more than 500 characters. */
  lemma NormalExactly(segs: seq<string>)
    requires |segs| > 0 && (forall i | 0 <= i < |segs| :: '/' !in segs[i]) && segs[0] != "" && segs[|segs| - 1] != ""
    ensures (forall i | 0 <= i < |segs| :: segs[i] !in ["", ".", ".."]) && |Join(segs)| <= 500 ==> Normal(Join(segs)) == Path(Join(segs))
    ensures (exists i :: 0 <= i < |segs| && segs[i] in ["", ".", ".."]) || |Join(segs)| > 500 ==> Normal(Join(segs)) == BadPath
    ensures Normal("") == Path("/") == Normal("/")
  {
    hide Split, Join, TrimLeft, TrimRight;
    SplitJoin(segs);
    JoinEnds(segs);
    NothingToTrim(Join(segs));
    forall i | 0 <= i < |segs| ensures PlainSegment(segs[i]) <==> segs[i] !in ["", ".", ".."] {
    }
  }

  lemma NothingToTrim(p: string)
    requires p != "" && p[0] != '/' && p[|p| - 1] != '/'
    ensures TrimRight(TrimLeft(p)) == p && p != "/"
  {
  }

  lemma JoinEnds(segs: seq<string>)
    requires |segs| > 0 && (forall i | 0 <= i < |segs| :: '/' !in segs[i]) && segs[0] != "" && segs[|segs| - 1] != ""
    ensures Join(segs) != "" && Join(segs)[0] == segs[0][0] && Join(segs)[0] != '/'
    ensures Join(segs)[|Join(segs)| - 1] != '/'
  {
    assert segs[0][0] in segs[0];
    var last := segs[|segs| - 1];
    assert last[|last| - 1] in last;
    JoinEndsWith(segs);
  }

  lemma {:induction false} JoinEndsWith(segs: seq<string>)
    requires |segs| > 0 && segs[|segs| - 1] != ""
    ensures Join(segs) != "" && Join(segs)[|Join(segs)| - 1] == segs[|segs| - 1][|segs[|segs| - 1]| - 1]
  {
    if |segs| > 1 {
      JoinEndsWith(segs[1..]);
    }
  }

  function Decimal(n: nat): string {
    if n < 10 then [n as char + '0'] else Decimal(n / 10) + [(n % 10) as char + '0']
  }
}
