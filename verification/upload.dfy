/**
 * The upload rules of backend/middleware/upload.js: which file names the
 * filter refuses, the name a stored file gets, and the size limit. Node's
 * `path.extname` (POSIX form) is modelled here too, since every decision
 * rests on it.
 */
module Upload {
  import opened Wrappers
  import opened Text
  import opened Seqs

  // ---------------------------------------------------------------------------
  // path.extname
  // ---------------------------------------------------------------------------

  /** The path without its trailing slashes. */
  function TrimTrailingSlashes(p: string): (r: string)
    ensures |r| <= |p| && r == p[..|r|]
    ensures r == [] || r[|r| - 1] != '/'
    ensures '/' !in p ==> r == p
  {
    if p != [] && p[|p| - 1] == '/' then TrimTrailingSlashes(p[..|p| - 1]) else p
  }

  /** What follows the last slash. */
  function LastSegment(p: string): (r: string)
    ensures '/' !in r && |r| <= |p|
    ensures '/' !in p ==> r == p
  {
    if p == [] || p[|p| - 1] == '/' then [] else LastSegment(p[..|p| - 1]) + [p[|p| - 1]]
  }

  /** The last path segment, trailing slashes ignored, as `path.extname` takes it; a name without '/' is its own. */
  function BaseName(p: string): (r: string)
    ensures '/' !in r && |r| <= |p|
    ensures '/' !in p ==> r == p
  {
    LastSegment(TrimTrailingSlashes(p))
  }

  /** The index of the last '.', if any. */
  function LastDot(s: string): (r: Option<nat>)
    ensures r.Some? ==> r.value < |s| && s[r.value] == '.' && '.' !in s[r.value + 1..]
    ensures r.None? ==> '.' !in s
  {
    if s == [] then None
    else if s[|s| - 1] == '.' then Some(|s| - 1)
    else LastDot(s[..|s| - 1])
  }

  /**
   * The extension of a base name: from its last '.' to its end, or nothing
   * when it has no '.', starts with its only '.' (a dot-file such as
   * `.bashrc`), or is `..`.
   */
  function BaseExtension(base: string): (ext: string)
    ensures ext == [] || (ext[0] == '.' && '.' !in ext[1..] && |ext| <= |base| && ext == base[|base| - |ext|..])
  {
    match LastDot(base)
    case None => ""
    case Some(i) => if i == 0 || base == ".." then "" else base[i..]
  }

  /** `path.extname(p)`: the extension of the base name. */
  function ExtName(p: string): (ext: string)
    ensures ext == [] || (ext[0] == '.' && '.' !in ext[1..] && '/' !in ext)
  {
    BaseExtension(BaseName(p))
  }

  /** The last '.' of `stem + ext` is the one that opens `ext`. */
  lemma {:induction false} LastDotOfExtension(stem: string, ext: string)
    requires ext != [] && ext[0] == '.' && '.' !in ext[1..]
    ensures LastDot(stem + ext) == Some(|stem|)
    decreases |ext|
  {
    var s := stem + ext;
    if |ext| > 1 {
      assert s[|s| - 1] == ext[|ext| - 1] && ext[|ext| - 1] in ext[1..];
      assert s[..|s| - 1] == stem + ext[..|ext| - 1];
      assert ext[..|ext| - 1][1..] == ext[1..|ext| - 1];
      LastDotOfExtension(stem, ext[..|ext| - 1]);
    }
  }

  /**
   * Only the final extension counts: a name made of a non-empty stem without
   * '/' (which may hold dots of its own) and an extension `.xyz` has exactly
   * that extension. A stem ending in '/' would start a new segment, so that
   * `a/.xyz` is a dot-file with no extension.
   */
  lemma ExtNameOfStemAndExtension(stem: string, ext: string)
    requires stem != [] && '/' !in stem
    requires ext != [] && ext[0] == '.' && '.' !in ext[1..] && '/' !in ext
    requires stem != "." || ext != "."
    ensures ExtName(stem + ext) == ext
  {
    LastDotOfExtension(stem, ext);
    assert (stem + ext)[|stem|..] == ext;
    if |stem| == 1 && |ext| == 1 {
      assert stem + ext == [stem[0], ext[0]];
    }
  }

  /** A base name without a '.' has no extension. */
  lemma ExtNameWithoutDot(s: string)
    requires '/' !in s && '.' !in s
    ensures ExtName(s) == ""
  {
  }

  // ---------------------------------------------------------------------------
  // fileFilter
  // ---------------------------------------------------------------------------

  /** The refused extensions, lower-case. */
  const Blocked: seq<string> := [".exe", ".bat", ".sh", ".cmd", ".msi", ".jar"]

  const RejectMessage: string := "File type not allowed for security reasons."

  /** The two arguments `fileFilter` passes to its callback: an error (or `null`) and the verdict. */
  datatype FilterDecision = FilterDecision(error: Option<string>, accept: bool)

  /**
   * `fileFilter`: refuses exactly the names whose lower-cased extension is
   * blocked, always with the same message and `false`; otherwise `(null, true)`.
   */
  function FileFilter(originalName: string): (d: FilterDecision)
    ensures !d.accept <==> Lower(ExtName(originalName)) in Blocked
    ensures d.accept ==> d.error == None
    ensures !d.accept ==> d.error == Some(RejectMessage)
  {
    if Lower(ExtName(originalName)) in Blocked then FilterDecision(Some(RejectMessage), false)
    else FilterDecision(None, true)
  }

  /** A name without any '.' is always accepted. */
  lemma NoExtensionAccepted(name: string)
    requires '/' !in name && '.' !in name
    ensures FileFilter(name) == FilterDecision(None, true)
  {
  }

  /** The verdict depends on the extension alone. */
  lemma FilterByExtension(name: string, ext: string)
    requires ExtName(name) == ext
    ensures FileFilter(name).accept <==> Lower(ext) !in Blocked
  {
  }

  /**
   * A name with a non-empty stem and a final extension is refused exactly
   * when that extension, whatever its case, is on the block list.
   */
  lemma FinalExtensionDecides(stem: string, ext: string)
    requires stem != [] && '/' !in stem
    requires |ext| >= 2 && ext[0] == '.' && '.' !in ext[1..] && '/' !in ext
    ensures FileFilter(stem + ext).accept <==> Lower(ext) !in Blocked
  {
    ExtNameOfStemAndExtension(stem, ext);
    FilterByExtension(stem + ext, ext);
  }

  /**
   * Case does not matter: `RUN.EXE`, and any other `<stem>.EXE` whose stem is
   * non-empty and holds no '/', is refused. (The dot-file `.EXE` itself has no
   * extension and is accepted.)
   */
  lemma UpperCaseExtensionRefused(stem: string)
    requires stem != [] && '/' !in stem
    ensures !FileFilter(stem + ".EXE").accept
  {
    var ext := ".EXE";
    assert ext[1..] == "EXE";
    assert Lower(ext) == ".exe";
    FinalExtensionDecides(stem, ext);
  }

  /** Only the last extension counts: `a.txt.exe` is refused... */
  lemma BlockedLastExtensionRefused(stem: string)
    requires stem != [] && '/' !in stem
    ensures !FileFilter(stem + ".txt" + ".exe").accept
  {
    var ext := ".exe";
    assert ext[1..] == "exe";
    assert Lower(ext) == ext;
    FinalExtensionDecides(stem + ".txt", ext);
  }

  /** ...and `a.exe.txt` is accepted. */
  lemma BlockedInnerExtensionAccepted(stem: string)
    requires stem != [] && '/' !in stem
    ensures FileFilter(stem + ".exe" + ".txt").accept
  {
    var ext := ".txt";
    assert ext[1..] == "txt";
    assert Lower(ext) == ext;
    assert ext !in Blocked by {
      assert ext[1] == 't';
      assert forall b :: b in Blocked ==> b[1] != 't';
    }
    FinalExtensionDecides(stem + ".exe", ext);
  }

  /** A dot-file whose only '.' is the leading one has no extension. */
  lemma DotFileHasNoExtension(name: string)
    requires name != [] && name[0] == '.' && '.' !in name[1..] && '/' !in name
    ensures ExtName(name) == ""
  {
    LastDotOfExtension([], name);
    assert [] + name == name;
  }

  /** A dot-file such as `.exe` has no extension, so it is accepted whatever follows the dot. */
  lemma DotFileAccepted(rest: string)
    requires '/' !in rest && '.' !in rest
    ensures FileFilter("." + rest).accept
  {
    var name := "." + rest;
    assert name[1..] == rest;
    DotFileHasNoExtension(name);
    assert Lower("") == "";
  }

  // ---------------------------------------------------------------------------
  // Case-insensitivity
  // ---------------------------------------------------------------------------

  lemma LowerPrefix(s: string, k: nat)
    requires k <= |s|
    ensures Lower(s[..k]) == Lower(s)[..k]
  {
  }

  lemma {:induction false} TrimCommutesWithLower(p: string)
    ensures TrimTrailingSlashes(Lower(p)) == Lower(TrimTrailingSlashes(p))
    decreases |p|
  {
    if p != [] {
      LowerKeepsSeparators(p[|p| - 1]);
      assert Lower(p)[|p| - 1] == LowerChar(p[|p| - 1]);
    }
    if p != [] && p[|p| - 1] == '/' {
      LowerPrefix(p, |p| - 1);
      TrimCommutesWithLower(p[..|p| - 1]);
    }
  }

  lemma {:induction false} LastSegmentCommutesWithLower(p: string)
    ensures LastSegment(Lower(p)) == Lower(LastSegment(p))
    decreases |p|
  {
    if p != [] {
      var last := p[|p| - 1];
      LowerKeepsSeparators(last);
      assert Lower(p)[|p| - 1] == LowerChar(last);
      if last != '/' {
        LowerPrefix(p, |p| - 1);
        LastSegmentCommutesWithLower(p[..|p| - 1]);
        LowerSnoc(LastSegment(p[..|p| - 1]), last);
      }
    }
  }

  lemma LowerSnoc(s: string, c: char)
    ensures Lower(s + [c]) == Lower(s) + [LowerChar(c)]
  {
  }

  lemma LowerKeepsSeparators(c: char)
    ensures LowerChar(c) == '.' <==> c == '.'
    ensures LowerChar(c) == '/' <==> c == '/'
  {
  }

  lemma {:induction false} LastDotCommutesWithLower(s: string)
    ensures LastDot(Lower(s)) == LastDot(s)
    decreases |s|
  {
    if s != [] {
      LowerKeepsSeparators(s[|s| - 1]);
      LowerPrefix(s, |s| - 1);
      LastDotCommutesWithLower(s[..|s| - 1]);
    }
  }

  lemma BaseExtensionCommutesWithLower(base: string)
    ensures BaseExtension(Lower(base)) == Lower(BaseExtension(base))
  {
    LastDotCommutesWithLower(base);
    match LastDot(base)
    case None =>
    case Some(i) =>
      if |base| == 2 {
        LowerKeepsSeparators(base[0]);
        LowerKeepsSeparators(base[1]);
        assert base == ".." <==> Lower(base) == "..";
      }
      assert Lower(base)[i..] == Lower(base[i..]);
  }

  /** Lower-casing a name lower-cases its extension and changes nothing else about it. */
  lemma ExtNameCommutesWithLower(p: string)
    ensures ExtName(Lower(p)) == Lower(ExtName(p))
  {
    TrimCommutesWithLower(p);
    LastSegmentCommutesWithLower(TrimTrailingSlashes(p));
    BaseExtensionCommutesWithLower(BaseName(p));
  }

  /** Names that differ only in the case of their letters get the same verdict. */
  lemma FilterIgnoresCase(a: string, b: string)
    requires Lower(a) == Lower(b)
    ensures FileFilter(a) == FileFilter(b)
  {
    ExtNameCommutesWithLower(a);
    ExtNameCommutesWithLower(b);
  }

  // ---------------------------------------------------------------------------
  // filename
  // ---------------------------------------------------------------------------

  /**
   * `${Date.now()}-${Math.round(Math.random() * 1e9)}`: digits and one '-', so
   * no '.' that `path.extname` could take for an extension and no '/'; the
   * '-' splits it back into the two numbers.
   */
  function UniqueSuffix(now: nat, random: nat): (r: string)
    ensures '.' !in r && '/' !in r
    ensures forall i :: 0 <= i < |r| ==> IsDigit(r[i]) || r[i] == '-'
    ensures '-' in r
    ensures forall k :: 0 <= k < |r| && r[k] == '-' ==>
              AllDigits(r[..k]) && AllDigits(r[k + 1..]) && DigitsValue(r[..k]) == now && DigitsValue(r[k + 1..]) == random
  {
    var a, b := DecimalString(now), DecimalString(random);
    DashSplits(a, b);
    DecimalRoundTrip(now);
    DecimalRoundTrip(random);
    a + "-" + b
  }

  /** Two uploads stored with different clock or random values get different names. */
  lemma UniqueSuffixInjective(now1: nat, random1: nat, now2: nat, random2: nat)
    requires UniqueSuffix(now1, random1) == UniqueSuffix(now2, random2)
    ensures now1 == now2 && random1 == random2
  {
    var s := UniqueSuffix(now1, random1);
    var k :| 0 <= k < |s| && s[k] == '-';
  }

  /** Two digit strings joined by '-': the '-' is the only one, and it splits them apart again. */
  lemma DashSplits(a: string, b: string)
    requires AllDigits(a) && AllDigits(b)
    ensures var r := a + "-" + b;
            && '.' !in r && '/' !in r && '-' in r
            && (forall i :: 0 <= i < |r| ==> IsDigit(r[i]) || r[i] == '-')
            && forall k :: 0 <= k < |r| && r[k] == '-' ==> r[..k] == a && r[k + 1..] == b
  {
    var r := a + "-" + b;
    assert r[|a|] == '-';
    assert forall k :: 0 <= k < |a| ==> r[k] == a[k];
    assert forall k :: |a| < k < |r| ==> r[k] == b[k - |a| - 1];
    assert r[..|a|] == a && r[|a| + 1..] == b;
  }

  /** `filename`: the unique suffix followed by the original extension, as it was written. */
  function StoredName(suffix: string, originalName: string): (r: string)
    ensures |r| == |suffix| + |ExtName(originalName)|
    ensures r[..|suffix|] == suffix && r[|suffix|..] == ExtName(originalName)
  {
    suffix + ExtName(originalName)
  }

  /**
   * The stored name ends with the original extension, unchanged in case, and
   * reading the extension of the stored name gives it back.
   */
  lemma StoredNameKeepsExtension(now: nat, random: nat, originalName: string)
    ensures var stored := StoredName(UniqueSuffix(now, random), originalName);
            && stored[|stored| - |ExtName(originalName)|..] == ExtName(originalName)
            && ExtName(stored) == ExtName(originalName)
  {
    var suffix := UniqueSuffix(now, random);
    var ext := ExtName(originalName);
    DigitsHaveNoSeparators(DecimalString(now));
    DigitsHaveNoSeparators(DecimalString(random));
    assert '/' !in suffix && '.' !in suffix;
    if ext == [] {
      assert suffix + ext == suffix;
      ExtNameWithoutDot(suffix);
    } else {
      ExtNameOfStemAndExtension(suffix, ext);
    }
  }

  lemma DigitsHaveNoSeparators(s: string)
    requires AllDigits(s)
    ensures '/' !in s && '.' !in s
  {
  }

  // ---------------------------------------------------------------------------
  // limits.fileSize
  // ---------------------------------------------------------------------------

  predicate IsSpace(c: char) {
    c == ' ' || c == '\t' || c == '\n' || c == '\r' || c == '\U{000B}' || c == '\U{000C}'
  }

  function TrimStart(s: string): (r: string)
    ensures r == [] || !IsSpace(r[0])
    ensures s != [] && !IsSpace(s[0]) ==> r == s
  {
    if s != [] && IsSpace(s[0]) then TrimStart(s[1..]) else s
  }

  /** Leading white space is skipped up to the first other character. */
  lemma {:induction false} TrimStartSkipsSpaces(w: string, x: string)
    requires forall i :: 0 <= i < |w| ==> IsSpace(w[i])
    requires x != [] && !IsSpace(x[0])
    ensures TrimStart(w + x) == x
    decreases |w|
  {
    if w == [] {
      assert w + x == x;
    } else {
      assert (w + x)[0] == w[0] && (w + x)[1..] == w[1..] + x;
      TrimStartSkipsSpaces(w[1..], x);
    }
  }

  /** The longest prefix of decimal digits. */
  function DigitPrefix(s: string): (r: string)
    ensures AllDigits(r) && |r| <= |s| && r == s[..|r|]
    ensures AllDigits(s) ==> r == s
  {
    if s != [] && IsDigit(s[0]) then [s[0]] + DigitPrefix(s[1..]) else []
  }

  /**
   * `parseInt(s, 10)`: leading white space, an optional sign, then the longest
   * run of digits; `None` stands for `NaN` (no digit at all).
   */
  function ParseInt(s: string): (r: Option<int>)
    ensures s != [] && IsDigit(s[0]) ==> r.Some? && r.value >= 0
    ensures s != [] && !IsDigit(s[0]) && !IsSpace(s[0]) && s[0] != '-' && s[0] != '+' ==> r == None
    ensures s != [] && AllDigits(s) ==> r == Some(DigitsValue(s))
    ensures |s| > 1 && s[0] == '-' && AllDigits(s[1..]) ==> r == Some(-(DigitsValue(s[1..]) as int))
  {
    var t := TrimStart(s);
    var negative := t != [] && t[0] == '-';
    var unsigned := if t != [] && (t[0] == '-' || t[0] == '+') then t[1..] else t;
    var digits := DigitPrefix(unsigned);
    var magnitude: int := DigitsValue(digits);
    if digits == [] then None else Some(if negative then -magnitude else magnitude)
  }

  /** The digit run stops at the first character that is not a digit. */
  lemma {:induction false} DigitPrefixStops(d: string, rest: string)
    requires AllDigits(d) && (rest == [] || !IsDigit(rest[0]))
    ensures DigitPrefix(d + rest) == d
    decreases |d|
  {
    if d == [] {
      assert d + rest == rest;
    } else {
      assert (d + rest)[0] == d[0] && (d + rest)[1..] == d[1..] + rest;
      DigitPrefixStops(d[1..], rest);
    }
  }

  /** An optional sign before a run of digits: what `parseInt` sees after the white space. */
  lemma SignedDigits(sign: string, d: string, rest: string)
    requires sign == "" || sign == "+" || sign == "-"
    requires d != [] && AllDigits(d)
    ensures var x := sign + d + rest;
            && x != [] && !IsSpace(x[0])
            && (x[0] == '-' <==> sign == "-")
            && (if x[0] == '-' || x[0] == '+' then x[1..] else x) == d + rest
  {
    if sign == "" {
      assert sign + d + rest == d + rest;
    } else {
      assert (sign + d + rest)[1..] == d + rest;
    }
  }

  /**
   * `parseInt` of white space, an optional sign, a run of digits and anything
   * that does not continue the run: the signed value of the digits.
   */
  lemma ParseIntOfPrefix(w: string, sign: string, d: string, rest: string)
    requires forall i :: 0 <= i < |w| ==> IsSpace(w[i])
    requires sign == "" || sign == "+" || sign == "-"
    requires d != [] && AllDigits(d)
    requires rest == [] || !IsDigit(rest[0])
    ensures ParseInt(w + sign + d + rest) ==
              Some(if sign == "-" then -(DigitsValue(d) as int) else DigitsValue(d) as int)
  {
    var x := sign + d + rest;
    ParseIntOfSigned(sign, d, rest);
    SignedDigits(sign, d, rest);
    ParseIntAfterSpaces(w, x);
    AppendAssociates(w, sign, d);
    AppendAssociates(w, sign + d, rest);
  }

  /** Without leading white space. */
  lemma ParseIntOfSigned(sign: string, d: string, rest: string)
    requires sign == "" || sign == "+" || sign == "-"
    requires d != [] && AllDigits(d)
    requires rest == [] || !IsDigit(rest[0])
    ensures ParseInt(sign + d + rest) ==
              Some(if sign == "-" then -(DigitsValue(d) as int) else DigitsValue(d) as int)
  {
    var x := sign + d + rest;
    SignedDigits(sign, d, rest);
    DigitPrefixStops(d, rest);
    ParseIntOfTrimmed(x, d);
  }

  /** `parseInt` of a string with no leading white space whose digit run, after any sign, is `digits`. */
  lemma ParseIntOfTrimmed(t: string, digits: string)
    requires t != [] && !IsSpace(t[0])
    requires digits != [] && digits == DigitPrefix(if t[0] == '-' || t[0] == '+' then t[1..] else t)
    ensures ParseInt(t) == Some(if t[0] == '-' then -(DigitsValue(digits) as int) else DigitsValue(digits) as int)
  {
    assert TrimStart(t) == t;
  }

  /**
   * `parseInt` of white space, an optional sign and then no digit: `NaN`. With
   * no sign, what follows the white space must not be a sign either (it would
   * be read as one). Together with `ParseIntOfPrefix` this covers every string.
   */
  lemma ParseIntNotANumber(w: string, sign: string, rest: string)
    requires forall i :: 0 <= i < |w| ==> IsSpace(w[i])
    requires sign == "" || sign == "+" || sign == "-"
    requires rest == [] || !IsDigit(rest[0])
    requires sign == "" && rest != [] ==> !IsSpace(rest[0]) && rest[0] != '-' && rest[0] != '+'
    ensures ParseInt(w + sign + rest) == None
  {
    var x := sign + rest;
    if x == [] {
      assert w + sign + rest == w;
      TrimStartOfSpaces(w);
    } else {
      AppendAssociates(w, sign, rest);
      ParseIntAfterSpaces(w, x);
      ParseIntWithoutDigits(sign, rest);
    }
  }

  /** Nothing but white space trims to nothing. */
  lemma {:induction false} TrimStartOfSpaces(w: string)
    requires forall i :: 0 <= i < |w| ==> IsSpace(w[i])
    ensures TrimStart(w) == []
    decreases |w|
  {
    if w != [] {
      TrimStartOfSpaces(w[1..]);
    }
  }

  /** Without leading white space: a sign, or none, then no digit. */
  lemma ParseIntWithoutDigits(sign: string, rest: string)
    requires sign == "" || sign == "+" || sign == "-"
    requires rest == [] || !IsDigit(rest[0])
    requires sign + rest != []
    requires sign == "" ==> !IsSpace(rest[0]) && rest[0] != '-' && rest[0] != '+'
    ensures ParseInt(sign + rest) == None
  {
    var t := sign + rest;
    assert TrimStart(t) == t;
    if sign == "" {
      assert t == rest;
    } else {
      assert t[1..] == rest;
    }
  }

  /** White space before a non-space character does not change what `parseInt` reads. */
  lemma ParseIntAfterSpaces(w: string, x: string)
    requires forall i :: 0 <= i < |w| ==> IsSpace(w[i])
    requires x != [] && !IsSpace(x[0])
    ensures ParseInt(w + x) == ParseInt(x)
  {
    TrimStartSkipsSpaces(w, x);
  }

  /**
   * `maxSizeMB * 1024 * 1024`, where `maxSizeMB` is
   * `parseInt(MAX_FILE_SIZE_MB || '50', 10)`; `None` stands for `NaN`.
   */
  function MaxFileSize(env: Option<string>): (r: Option<int>)
    ensures r.Some? ==> r.value % 1048576 == 0
    ensures env.Some? && env.value != "" && ParseInt(env.value) == None ==> r == None
    ensures env.Some? && env.value != "" && ParseInt(env.value).Some? ==> r == Some(ParseInt(env.value).value * 1048576)
  {
    var raw := if env == None || env == Some("") then "50" else env.value;
    match ParseInt(raw)
    case None => None
    case Some(mb) => Some(mb * 1024 * 1024)
  }

  /** A decimal string parses back to its number. */
  lemma ParseIntOfDecimal(n: nat)
    ensures ParseInt(DecimalString(n)) == Some(n)
  {
    var d := DecimalString(n);
    assert !IsSpace(d[0]) && d[0] != '-' && d[0] != '+';
    assert TrimStart(d) == d;
    assert DigitPrefix(d) == d;
    DecimalRoundTrip(n);
  }

  /** With the variable unset or empty the limit is 50 MiB. */
  lemma MaxFileSizeDefault()
    ensures MaxFileSize(None) == Some(52428800)
    ensures MaxFileSize(Some("")) == Some(52428800)
  {
    ParseIntOfDecimal(50);
    assert DecimalString(50) == "50";
  }

  /** Set to the decimal rendering of `n`, the limit is `n` MiB. */
  lemma MaxFileSizeOfDecimal(n: nat)
    ensures MaxFileSize(Some(DecimalString(n))) == Some(n * 1048576)
  {
    ParseIntOfDecimal(n);
  }

  /** A value that does not start with a digit, a sign or white space gives `NaN`. */
  lemma MaxFileSizeNotANumber(s: string)
    requires s != [] && !IsDigit(s[0]) && !IsSpace(s[0]) && s[0] != '-' && s[0] != '+'
    ensures MaxFileSize(Some(s)) == None
  {
  }
}
