/** How the engine's logger shapes a record before it is printed: the level
    filter against the threshold `m_Level`, the shortening of the calling
    function's name, the text of each level and the plain-text line. */
module Logging {
  import opened Wrappers
  import opened Strings

  /** The `u32` line number of a record. */
  type U32 = x: int | 0 <= x < 0x1_0000_0000

  /** The constants of `Logger::Level`. Their numeric codes are not fixed
      here: a logger is given them as its `code` function. */
  datatype Level = Verbose | Info | Warning | Error | Fatal | All | Count

  /** The enumerators of `Logger::Level` have pairwise distinct values, so
      comparing levels by constructor agrees with comparing their values. */
  predicate DistinctCodes(code: Level -> int)
  {
    forall a, b :: a != b ==> code(a) != code(b)
  }

  /** A cast to `char`, taken as signed 8-bit with wrap-around. */
  function AsChar(x: int): (c: int)
    ensures -128 <= c < 128
    ensures (c - x) % 256 == 0
    ensures -128 <= x < 128 ==> c == x
  {
    (x + 128) % 256 - 128
  }

  // ---------------------------------------------------------------------
  // Level filter

  /** A record of level `level` gets past the two early returns of
      LogInternal under the char-valued threshold `threshold`. */
  predicate Passes(threshold: int, code: Level -> int, level: Level)
  {
    !(AsChar(code(level)) < threshold) && level != All && level != Count
  }

  /** `All` and `Count` are never emitted, whatever the threshold. */
  lemma AllAndCountNeverPass(threshold: int, code: Level -> int)
    ensures !Passes(threshold, code, All) && !Passes(threshold, code, Count)
  {
  }

  /** A record whose char code is below the threshold is dropped. */
  lemma BelowThresholdDropped(threshold: int, code: Level -> int, level: Level)
    requires AsChar(code(level)) < threshold
    ensures !Passes(threshold, code, level)
  {
  }

  /** With the threshold set to a level, records of that level are emitted. */
  lemma PassesAtOwnThreshold(code: Level -> int, level: Level)
    requires level != All && level != Count
    ensures Passes(AsChar(code(level)), code, level)
  {
  }

  /** Under the threshold of `All` (a new logger's) every level other than
      `All` and `Count` is emitted, provided `All` has the lowest char code. */
  lemma AllThresholdPassesEvery(code: Level -> int, level: Level)
    requires forall m :: AsChar(code(All)) <= AsChar(code(m))
    requires level != All && level != Count
    ensures Passes(AsChar(code(All)), code, level)
  {
  }

  /** A higher threshold only drops more records. */
  lemma RaisingThresholdOnlyDrops(lo: int, hi: int, code: Level -> int, level: Level)
    requires lo <= hi && Passes(hi, code, level)
    ensures Passes(lo, code, level)
  {
  }

  // ---------------------------------------------------------------------
  // Function-name shortening

  /** The name after its first "lambda" is cut off and replaced by ">". */
  function LambdaTruncated(s: string): (t: string)
    ensures |t| <= |s| + 1
  {
    ThroughFirstSpec(s, "lambda");
    match ThroughFirst(s, "lambda")
    case Some(p) => p + ">"
    case None => s
  }

  /** The text after the last ':' of `t`, or all of `t` if it has none. */
  function AfterLastColon(t: string): (r: string)
    ensures ':' !in r
    ensures IsSuffix(r, t)
    ensures r != t ==> t[|t| - |r| - 1] == ':'
    decreases |t|
  {
    if ':' in t then
      var r := AfterLastColon(t[1..]);
      assert r == t[|t| - |r|..];
      assert r == t[1..] ==> t[0] == ':';
      r
    else t
  }

  /** The shortened function name a record carries. */
  function ShortName(s: string): (r: string)
    ensures ':' !in r
    ensures |r| <= |s| + 1
    ensures IsSuffix(r, LambdaTruncated(s))
  {
    AfterLastColon(LambdaTruncated(s))
  }

  /** LambdaTruncated in terms of the index `std::string::find` returns. */
  lemma LambdaTruncatedByFind(s: string)
    ensures Find(s, "lambda").None? ==> LambdaTruncated(s) == s
    ensures Find(s, "lambda").Some? ==>
      var i := Find(s, "lambda").value;
      i + 6 <= |s| && LambdaTruncated(s) == s[..i + 6] + ">"
  {
    var f := Find(s, "lambda");
    if f.Some? {
      ThroughFirstAt(s, "lambda", f.value);
    } else {
      ThroughFirstSpec(s, "lambda");
    }
  }

  /** AfterLastColon in terms of the index `find_last_of(":")` returns. */
  lemma AfterLastColonByFindLastOf(t: string)
    ensures FindLastOf(t, ':').None? ==> AfterLastColon(t) == t
    ensures FindLastOf(t, ':').Some? ==>
      var pos := FindLastOf(t, ':').value;
      pos < |t| && AfterLastColon(t) == t[pos + 1..]
  {
    var f := FindLastOf(t, ':');
    if f.Some? {
      AfterLastColonIsPastLastColon(t, AfterLastColon(t), f.value);
    }
  }

  /** A colon-free suffix that is the whole text or starts right after a
      ':' is the text after the last ':'. */
  lemma AfterLastColonIsPastLastColon(t: string, r: string, p: nat)
    requires p < |t| && t[p] == ':' && ':' !in t[p + 1..]
    requires ':' !in r && IsSuffix(r, t) && (r != t ==> t[|t| - |r| - 1] == ':')
    ensures r == t[p + 1..]
  {
    assert r != t by {
      assert t[p] in t;
    }
    var q := |t| - |r| - 1;
    forall i | p < i < |t|
      ensures t[i] != ':'
    {
      assert t[i] == t[p + 1..][i - p - 1];
    }
    forall i | q < i < |t|
      ensures t[i] != ':'
    {
      assert t[i] == r[i - q - 1];
    }
  }

  /** A name with neither "lambda" nor ':' is returned unchanged. */
  lemma ShortNameUnchanged(s: string)
    requires Find(s, "lambda").None? && ':' !in s
    ensures ShortName(s) == s
  {
    LambdaTruncatedByFind(s);
  }

  /** For a name whose first "lambda" starts at `i`, the short name is a
      suffix of the name through that "lambda" followed by ">", and it ends
      with "lambda>": everything after the first "lambda" is gone. */
  lemma {:induction false} ShortNameOfLambda(s: string, i: nat)
    requires OccursAt(s, "lambda", i)
    requires forall j :: 0 <= j < i ==> !OccursAt(s, "lambda", j)
    ensures IsSuffix(ShortName(s), s[..i + 6] + ">")
    ensures var r := ShortName(s);
      |r| >= 7 && r[|r| - 7..|r| - 1] == "lambda" && r[|r| - 1] == '>'
  {
    LambdaTruncatedAt(s, i);
    var t := LambdaTruncated(s);
    LambdaCutEnding(s, i, t);
    ColonFreeTailKept(t, AfterLastColon(t));
  }

  /** The lambda cut of a name whose first "lambda" starts at `i`. */
  lemma LambdaTruncatedAt(s: string, i: nat)
    requires OccursAt(s, "lambda", i)
    requires forall j :: 0 <= j < i ==> !OccursAt(s, "lambda", j)
    ensures LambdaTruncated(s) == s[..i + 6] + ">"
  {
    ThroughFirstAt(s, "lambda", i);
  }

  /** A name cut after an occurrence of "lambda" ends in "lambda>". */
  lemma LambdaCutEnding(s: string, i: nat, t: string)
    requires OccursAt(s, "lambda", i) && t == s[..i + 6] + ">"
    ensures |t| >= 7 && t[|t| - 7..|t| - 1] == "lambda" && t[|t| - 1] == '>'
  {
    assert t[|t| - 7..|t| - 1] == s[i..i + 6];
  }

  /** Keeping what follows the last ':' of a name that ends in "lambda>"
      keeps that ending. */
  lemma ColonFreeTailKept(t: string, r: string)
    requires |t| >= 7 && t[|t| - 7..|t| - 1] == "lambda" && t[|t| - 1] == '>'
    requires IsSuffix(r, t) && (r != t ==> t[|t| - |r| - 1] == ':')
    ensures |r| >= 7 && r[|r| - 7..|r| - 1] == "lambda" && r[|r| - 1] == '>'
  {
    forall p | |t| - 7 <= p < |t| - 1
      ensures t[p] != ':'
    {
      assert t[p] == t[|t| - 7..|t| - 1][p - (|t| - 7)];
    }
    assert |r| >= 7;
    assert r[|r| - 7..|r| - 1] == t[|t| - 7..|t| - 1];
  }

  /** `"main::<lambda_1>::operator ()"` is shortened to `"<lambda>"`. */
  lemma ShortNameExample(s: string)
    requires s == "main::<lambda_1>::operator ()"
    ensures ShortName(s) == "<lambda>"
  {
    ExampleLambdaCut(s);
    ExampleColonCut(LambdaTruncated(s));
  }

  lemma ExampleLambdaCut(s: string)
    requires s == "main::<lambda_1>::operator ()"
    ensures LambdaTruncated(s) == "main::<lambda>"
  {
    ExampleFirstLambda(s);
    LambdaTruncatedAt(s, 7);
    ExampleCutText(s);
  }

  lemma ExampleCutText(s: string)
    requires s == "main::<lambda_1>::operator ()"
    ensures s[..13] + ">" == "main::<lambda>"
  {
    assert s[..13] + ">" == [s[0], s[1], s[2], s[3], s[4], s[5], s[6], s[7], s[8], s[9], s[10], s[11], s[12], '>'];
  }

  lemma ExampleFirstLambda(s: string)
    requires s == "main::<lambda_1>::operator ()"
    ensures OccursAt(s, "lambda", 7)
    ensures forall j :: 0 <= j < 7 ==> !OccursAt(s, "lambda", j)
  {
    assert s[7..13] == "lambda" by {
      assert s[7..13] == [s[7], s[8], s[9], s[10], s[11], s[12]];
    }
    forall j | 0 <= j < 7
      ensures !OccursAt(s, "lambda", j)
    {
      assert s[j] != 'l';
      NotOccursAtOtherHead(s, "lambda", j);
    }
  }

  lemma ExampleColonCut(t: string)
    requires t == "main::<lambda>"
    ensures AfterLastColon(t) == "<lambda>"
  {
    ExampleFindsColon(t);
    AfterLastColonAt(t, 5);
    assert t[6..] == [t[6], t[7], t[8], t[9], t[10], t[11], t[12], t[13]];
  }

  lemma ExampleFindsColon(t: string)
    requires t == "main::<lambda>"
    ensures FindLastOf(t, ':') == Some(5)
  {
    assert t[5] == ':';
    forall i | 5 < i < |t|
      ensures t[i] != ':'
    {
    }
  }

  lemma AfterLastColonAt(t: string, pos: nat)
    requires FindLastOf(t, ':') == Some(pos)
    ensures pos < |t| && AfterLastColon(t) == t[pos + 1..]
  {
    AfterLastColonByFindLastOf(t);
  }

  /** Shortening a short name changes nothing. */
  lemma {:induction false} ShortNameIdempotent(s: string)
    ensures ShortName(ShortName(s)) == ShortName(s)
  {
    match Find(s, "lambda")
    case None => ShortNameIdempotentPlain(s);
    case Some(i) => ShortNameIdempotentLambda(s, i);
  }

  lemma ShortNameIdempotentPlain(s: string)
    requires Find(s, "lambda").None?
    ensures ShortName(ShortName(s)) == ShortName(s)
  {
    LambdaTruncatedByFind(s);
    var r := ShortName(s);
    var k := |s| - |r|;
    assert r == s[k..|s|];
    forall j | 0 <= j
      ensures !OccursAt(r, "lambda", j)
    {
      OccursAtSlice(s, "lambda", k, |s|, j);
    }
    ShortNameUnchanged(r);
  }

  lemma ShortNameIdempotentLambda(s: string, i: nat)
    requires Find(s, "lambda") == Some(i)
    ensures ShortName(ShortName(s)) == ShortName(s)
  {
    var r := ShortName(s);
    ShortNameOfLambda(s, i);
    OneLambdaInSuffix(s, i, r);
    LambdaTruncatedOfFinalLambda(r);
  }

  /** The only "lambda" in a suffix of a name cut after its first "lambda"
      (and ending in "lambda>") is the final one. */
  lemma OneLambdaInSuffix(s: string, i: nat, r: string)
    requires OccursAt(s, "lambda", i)
    requires forall j :: 0 <= j < i ==> !OccursAt(s, "lambda", j)
    requires IsSuffix(r, s[..i + 6] + ">")
    requires |r| >= 7 && r[|r| - 7..|r| - 1] == "lambda"
    ensures Find(r, "lambda") == Some(|r| - 7)
  {
    assert OccursAt(r, "lambda", |r| - 7);
    forall j | 0 <= j < |r| - 7
      ensures !OccursAt(r, "lambda", j)
    {
      NoEarlierLambdaInSuffix(s, i, r, j);
    }
    FindIsFirst(r, "lambda", |r| - 7);
  }

  lemma NoEarlierLambdaInSuffix(s: string, i: nat, r: string, j: nat)
    requires i + 6 <= |s|
    requires forall j :: 0 <= j < i ==> !OccursAt(s, "lambda", j)
    requires IsSuffix(r, s[..i + 6] + ">")
    requires j < |r| - 7
    ensures !OccursAt(r, "lambda", j)
  {
    var a := s[..i + 6];
    var t := a + ">";
    var k := |t| - |r|;
    OccursInSuffix(t, r, "lambda", j);
    OccursInPrefix(a, ">", "lambda", k + j);
    OccursInPrefix(a, s[i + 6..], "lambda", k + j);
    assert a + s[i + 6..] == s;
  }

  /** A name whose first "lambda" is followed by one final ">" is left as it is
      by the lambda cut. */
  lemma LambdaTruncatedOfFinalLambda(r: string)
    requires |r| >= 7 && Find(r, "lambda") == Some(|r| - 7) && r[|r| - 1] == '>'
    ensures LambdaTruncated(r) == r
  {
    LambdaTruncatedByFind(r);
    assert r[..|r| - 7 + 6] + ">" == r;
  }

  // ---------------------------------------------------------------------
  // Level text and the printed line

  /** GetLevelString (non-Windows build). */
  function LevelString(level: Level): (r: string)
    ensures r == "" <==> level == All || level == Count
    ensures ']' !in r
  {
    match level
    case Verbose => "VERBOSE"
    case Info => "INFO"
    case Warning => "WARNING"
    case Error => "ERROR"
    case Fatal => "FATAL"
    case _ => ""
  }

  /** Reading a level text back. */
  function ParseLevelString(s: string): Option<Level>
  {
    if s == "VERBOSE" then Some(Verbose)
    else if s == "INFO" then Some(Info)
    else if s == "WARNING" then Some(Warning)
    else if s == "ERROR" then Some(Error)
    else if s == "FATAL" then Some(Fatal)
    else None
  }

  /** The five emitted levels have distinct texts, and each reads back as its level. */
  lemma LevelStringRoundTrip(level: Level)
    ensures ParseLevelString(LevelString(level)) ==
      if level == All || level == Count then None else Some(level)
  {
  }

  /** A record handed to Print. */
  datatype LogEntry = LogEntry(filename: string, func: string, msg: string, line: U32, level: Level)

  /** The plain-text line Print writes for an entry. */
  function FormatLine(e: LogEntry): (r: string)
    ensures var head := "[" + LevelString(e.level) + "]";
      |head| <= |r| && r[..|head|] == head
    ensures var tail := ": " + e.msg;
      |tail| <= |r| && r[|r| - |tail|..] == tail
  {
    "[" + LevelString(e.level) + "]" + " " + e.filename + ":" + Decimal(e.line) + ":" + e.func + ": " + e.msg
  }

  /** The level named between the leading '[' and the first ']' of a line. */
  function LevelOfLine(line: string): Option<Level>
  {
    if |line| == 0 || line[0] != '[' then None
    else
      match Find(line, "]")
      case Some(i) => if 1 <= i then ParseLevelString(line[1..i]) else None
      case None => None
  }

  /** The level of an emitted record can be read back from its line. */
  lemma {:induction false} LevelOfFormatLine(e: LogEntry)
    ensures LevelOfLine(FormatLine(e)) ==
      if e.level == All || e.level == Count then None else Some(e.level)
  {
    var line, ls := FormatLine(e), LevelString(e.level);
    BracketedHead(line, ls);
    LevelStringRoundTrip(e.level);
  }

  /** In a line that starts with `"[" + ls + "]"`, with no ']' in `ls`, the
      first ']' closes `ls`. */
  lemma BracketedHead(line: string, ls: string)
    requires ']' !in ls
    requires |line| >= |ls| + 2 && line[..|ls| + 2] == "[" + ls + "]"
    ensures Find(line, "]") == Some(|ls| + 1) && line[1..|ls| + 1] == ls
  {
    var n := |ls| + 1;
    assert OccursAt(line, "]", n) by {
      assert line[n..n + 1] == line[..n + 1][n..];
    }
    forall j | 0 <= j < n
      ensures !OccursAt(line, "]", j)
    {
      assert line[j] == line[..n + 1][j];
      assert j == 0 || line[j] == ls[j - 1];
      assert line[j..j + 1] == [line[j]];
    }
    FindIsFirst(line, "]", n);
    assert line[1..n] == line[..n + 1][1..n];
  }

  // ---------------------------------------------------------------------
  // The logger object

  /** Name shortening as LogInternal performs it: cut after the first
      "lambda" and append ">", then keep what follows the last ':'. */
  method ShortenFunctionName(name: string) returns (func: string)
    ensures func == ShortName(name)
  {
    func := name;
    var lambdaAt := Find(func, "lambda");
    LambdaTruncatedByFind(name);
    if lambdaAt.Some? {
      func := func[..lambdaAt.value + 6] + ">";
    }
    var pos := FindLastOf(func, ':');
    AfterLastColonByFindLastOf(func);
    if pos.Some? {
      func := func[pos.value + 1..];
    }
  }

  /** The logger's threshold and file switch. `code` gives each level's
      numeric value; the threshold `level` is compared through the char cast. */
  class Logger {
    const code: Level -> int
    const multiThreaded: bool
    var level: int
    var shouldLogToFile: bool

    /** A new logger's threshold is the char code of `All`, and it logs to file. */
    constructor (code: Level -> int, multiThreaded: bool)
      requires DistinctCodes(code)
      ensures this.code == code && this.multiThreaded == multiThreaded
      ensures level == AsChar(code(All)) && shouldLogToFile
    {
      this.code := code;
      this.multiThreaded := multiThreaded;
      level := AsChar(code(All));
      shouldLogToFile := true;
    }

    /** SetLevel replaces the threshold wholesale. */
    method SetLevel(l: Level)
      modifies this`level
      ensures level == AsChar(code(l))
    {
      level := AsChar(code(l));
    }

    method SetShouldLogToFile(shouldLogToFile: bool)
      modifies this`shouldLogToFile
      ensures this.shouldLogToFile == shouldLogToFile
    {
      this.shouldLogToFile := shouldLogToFile;
    }

    /** The entry LogInternal builds for a record, or None when it drops it. */
    method LogInternal(lvl: Level, filename: string, line: U32, name: string, text: string)
      returns (entry: Option<LogEntry>)
      ensures AsChar(code(lvl)) < AsChar(level) ==> entry.None?
      ensures lvl == All || lvl == Count ==> entry.None?
      ensures entry.Some? <==> Passes(AsChar(level), code, lvl)
      ensures entry.Some? ==> entry.value == LogEntry(filename, ShortName(name), text, line, lvl)
    {
      if AsChar(code(lvl)) < AsChar(level) {
        return None;
      }
      if lvl == All || lvl == Count {
        return None;
      }
      var func := ShortenFunctionName(name);
      return Some(LogEntry(filename, func, text, line, lvl));
    }

    /** Print (non-Windows build): the line for the console, and whether the
        same line goes to the log file. */
    method Print(entry: LogEntry) returns (log: string, toFile: bool)
      ensures log == FormatLine(entry)
      ensures toFile == shouldLogToFile
    {
      log := FormatLine(entry);
      toFile := shouldLogToFile;
    }
  }
}
