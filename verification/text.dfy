/**
 * Java string values as the catalog sees them: a String reference that may be
 * null, the trimming rule behind "blank", substring containment, and the
 * separator join used for violation reports together with its inverse.
 */
module Text {

  /**
   * A Java String reference: null, or a sequence of Unicode characters. Java
   * stores a character above U+FFFF as two UTF-16 code units; Utf16Length
   * counts them the way String.length() does.
   */
  datatype JavaString = Null | Str(chars: string)

  /** The largest character one UTF-16 code unit holds. */
  const MaxSingleUnit: char := '\U{FFFF}'

  /** String.length(): one code unit per character up to U+FFFF, two (a surrogate pair) above. */
  function Utf16Length(s: string): (n: nat)
    ensures |s| <= n <= 2 * |s|
  {
    UnitsFrom(s, 0)
  }

  /** The code units of the characters from index `i` on. */
  function UnitsFrom(s: string, i: nat): (n: nat)
    requires i <= |s|
    ensures |s| - i <= n <= 2 * (|s| - i)
    decreases |s| - i
  {
    if i == |s| then 0 else (if s[i] <= MaxSingleUnit then 1 else 2) + UnitsFrom(s, i + 1)
  }

  /** Text without characters above U+FFFF has one code unit per character; text of only such characters, two. */
  lemma Utf16LengthUniform(s: string)
    ensures (forall i | 0 <= i < |s| :: s[i] <= MaxSingleUnit) ==> Utf16Length(s) == |s|
    ensures (forall i | 0 <= i < |s| :: s[i] > MaxSingleUnit) ==> Utf16Length(s) == 2 * |s|
  {
    UnitsFromUniform(s, 0);
  }

  lemma {:induction false} UnitsFromUniform(s: string, i: nat)
    requires i <= |s|
    ensures (forall j | i <= j < |s| :: s[j] <= MaxSingleUnit) ==> UnitsFrom(s, i) == |s| - i
    ensures (forall j | i <= j < |s| :: s[j] > MaxSingleUnit) ==> UnitsFrom(s, i) == 2 * (|s| - i)
    decreases |s| - i
  {
    if i < |s| {
      UnitsFromUniform(s, i + 1);
    }
  }

  /** String.trim() removes leading and trailing characters at or below U+0020. */
  predicate IsTrimmable(c: char) {
    c <= ' '
  }

  /** Drops the leading trimmable characters. */
  function TrimStart(s: string): (r: string)
    ensures |r| <= |s|
    ensures |r| > 0 ==> !IsTrimmable(r[0])
  {
    if |s| > 0 && IsTrimmable(s[0]) then TrimStart(s[1..]) else s
  }

  /** TrimStart keeps a suffix, and everything it dropped is trimmable. */
  lemma {:induction false} TrimStartIsSuffix(s: string)
    ensures TrimStart(s) == s[|s| - |TrimStart(s)|..]
    ensures forall i | 0 <= i < |s| - |TrimStart(s)| :: IsTrimmable(s[i])
  {
    if |s| > 0 && IsTrimmable(s[0]) {
      TrimStartIsSuffix(s[1..]);
      assert s[1..][|s| - 1 - |TrimStart(s)|..] == s[|s| - |TrimStart(s)|..];
      forall i | 1 <= i < |s| - |TrimStart(s)|
        ensures IsTrimmable(s[i])
      {
        assert s[1..][i - 1] == s[i];
      }
    }
  }

  /** Drops the trailing trimmable characters. */
  function TrimEnd(s: string): (r: string)
    ensures |r| <= |s|
    ensures |r| > 0 ==> !IsTrimmable(r[|r| - 1])
  {
    if |s| > 0 && IsTrimmable(s[|s| - 1]) then TrimEnd(s[..|s| - 1]) else s
  }

  /** TrimEnd keeps a prefix, and everything it dropped is trimmable. */
  lemma {:induction false} TrimEndIsPrefix(s: string)
    ensures TrimEnd(s) == s[..|TrimEnd(s)|]
    ensures forall i | |TrimEnd(s)| <= i < |s| :: IsTrimmable(s[i])
  {
    if |s| > 0 && IsTrimmable(s[|s| - 1]) {
      TrimEndIsPrefix(s[..|s| - 1]);
      assert s[..|s| - 1][..|TrimEnd(s)|] == s[..|TrimEnd(s)|];
      forall i | |TrimEnd(s)| <= i < |s| - 1
        ensures IsTrimmable(s[i])
      {
        assert s[..|s| - 1][i] == s[i];
      }
    }
  }

  /** Java's String.trim(): what is left is no longer than the input and starts and ends with a kept character. */
  function Trim(s: string): (r: string)
    ensures |r| <= |s|
    ensures |r| > 0 ==> !IsTrimmable(r[0]) && !IsTrimmable(r[|r| - 1])
  {
    var t := TrimStart(s);
    TrimEndIsPrefix(t);
    var r := TrimEnd(t);
    assert |r| > 0 ==> r[0] == t[0];
    r
  }

  /** What trim() leaves is one contiguous piece of the input. */
  lemma TrimIsPiece(s: string)
    ensures Contains(s, Trim(s))
  {
    var t := TrimStart(s);
    var r := TrimEnd(t);
    TrimStartIsSuffix(s);
    TrimEndIsPrefix(t);
    assert s[|s| - |t|..][..|r|] == s[|s| - |t|..|s| - |t| + |r|];
    assert OccursAt(s, r, |s| - |t|);
  }

  /** What trim() leaves is the middle of the input: everything before and after it is trimmable. */
  lemma TrimKeepsMiddle(s: string)
    ensures exists i, j | 0 <= i <= j <= |s| ::
      && Trim(s) == s[i..j]
      && (forall k | 0 <= k < i :: IsTrimmable(s[k]))
      && (forall k | j <= k < |s| :: IsTrimmable(s[k]))
  {
    var t := TrimStart(s);
    var r := TrimEnd(t);
    TrimStartIsSuffix(s);
    TrimEndIsPrefix(t);
    var i := |s| - |t|;
    var j := i + |r|;
    assert r == s[i..j] by {
      assert s[i..][..|r|] == s[i..j];
    }
    forall k | j <= k < |s|
      ensures IsTrimmable(s[k])
    {
      assert s[i..][k - i] == s[k];
    }
  }

  /** What trim() leaves is empty exactly when every character is trimmable. */
  lemma TrimEmptyIffAllTrimmable(s: string)
    ensures |Trim(s)| == 0 <==> forall i | 0 <= i < |s| :: IsTrimmable(s[i])
  {
    var t := TrimStart(s);
    TrimStartIsSuffix(s);
    TrimEndIsPrefix(t);
    forall i | 0 <= i < |t|
      ensures t[i] == s[|s| - |t| + i]
    {
    }
  }

  /**
   * String.contains: `needle` occurs in `hay` at some offset, comparing
   * characters exactly. The empty string is in every string, and nothing
   * longer than `hay` is in it.
   */
  function Contains(hay: string, needle: string): (b: bool)
    ensures |needle| == 0 ==> b
    ensures b ==> |needle| <= |hay|
  {
    assert |needle| == 0 ==> OccursAt(hay, needle, 0);
    exists i | 0 <= i <= |hay| - |needle| :: OccursAt(hay, needle, i)
  }

  predicate OccursAt(hay: string, needle: string, i: int)
    requires 0 <= i <= |hay| - |needle|
  {
    hay[i..i + |needle|] == needle
  }

  /** The separator the violation report puts between two messages. */
  const ReportSeparator: string := ", "

  /** The parts in order, with `sep` between neighbours and nowhere else. */
  function Join(parts: seq<string>, sep: string): string
  {
    if |parts| == 0 then ""
    else if |parts| == 1 then parts[0]
    else parts[0] + sep + Join(parts[1..], sep)
  }

  /** Appending one more part adds exactly one separator and the part. */
  lemma {:induction false} JoinAppend(parts: seq<string>, last: string, sep: string)
    requires |parts| > 0
    ensures Join(parts + [last], sep) == Join(parts, sep) + sep + last
  {
    if |parts| == 1 {
      assert parts + [last] == [parts[0], last];
      assert [parts[0], last][1..] == [last];
    } else {
      assert (parts + [last])[1..] == parts[1..] + [last];
      JoinAppend(parts[1..], last, sep);
    }
  }

  /** A string found in `b` is found in `a + b`, and `a` is found at the start of `a + b`. */
  lemma ContainsInConcat(a: string, b: string, needle: string)
    ensures Contains(a + b, a)
    ensures Contains(b, needle) ==> Contains(a + b, needle)
  {
    assert OccursAt(a + b, a, 0);
    if Contains(b, needle) {
      var i :| 0 <= i <= |b| - |needle| && OccursAt(b, needle, i);
      assert (a + b)[|a| + i..|a| + i + |needle|] == b[i..i + |needle|];
      assert OccursAt(a + b, needle, |a| + i);
    }
  }

  /** Every part can be found in the joined string. */
  lemma {:induction false} JoinContainsParts(parts: seq<string>, sep: string)
    ensures forall i | 0 <= i < |parts| :: Contains(Join(parts, sep), parts[i])
  {
    if |parts| == 1 {
      assert OccursAt(parts[0], parts[0], 0);
    } else if |parts| > 1 {
      var rest := Join(parts[1..], sep);
      JoinContainsParts(parts[1..], sep);
      assert parts[0] + (sep + rest) == Join(parts, sep);
      ContainsInConcat(parts[0], sep + rest, parts[0]);
      forall i | 1 <= i < |parts|
        ensures Contains(Join(parts, sep), parts[i])
      {
        assert parts[i] == parts[1..][i - 1];
        ContainsInConcat(sep, rest, parts[i]);
        ContainsInConcat(parts[0], sep + rest, parts[i]);
      }
    }
  }

  /** Index of the first comma in `s`, or |s| when there is none. */
  function FirstComma(s: string): (i: nat)
    ensures i <= |s|
    ensures forall j | 0 <= j < i :: s[j] != ','
    ensures i < |s| ==> s[i] == ','
  {
    if |s| == 0 || s[0] == ',' then 0 else 1 + FirstComma(s[1..])
  }

  /** Cuts a report at each comma, dropping the comma and the character after it. */
  function SplitReport(s: string): seq<string>
    decreases |s|
  {
    var i := FirstComma(s);
    if i == |s| then [s]
    else [s[..i]] + SplitReport(if i + 2 <= |s| then s[i + 2..] else "")
  }

  lemma FirstCommaAfter(p: string, rest: string)
    requires ',' !in p
    ensures FirstComma(p + ReportSeparator + rest) == |p|
  {
    var s := p + ReportSeparator + rest;
    forall j | 0 <= j < |p|
      ensures s[j] != ','
    {
      assert s[j] == p[j];
      assert p[j] in p;
    }
    assert s[|p|] == ',';
  }

  /** A report joined from comma-free messages splits back into exactly those messages. */
  lemma {:induction false} SplitJoin(parts: seq<string>)
    requires |parts| > 0
    requires forall p | p in parts :: ',' !in p
    ensures SplitReport(Join(parts, ReportSeparator)) == parts
  {
    var p := parts[0];
    assert p in parts;
    if |parts| == 1 {
      forall j | 0 <= j < |p|
        ensures p[j] != ','
      {
        assert p[j] in p;
      }
    } else {
      var rest := Join(parts[1..], ReportSeparator);
      var s := p + ReportSeparator + rest;
      assert Join(parts, ReportSeparator) == s;
      FirstCommaAfter(p, rest);
      assert s[..|p|] == p;
      assert s[|p| + 2..] == rest;
      forall q | q in parts[1..]
        ensures ',' !in q
      {
        assert q in parts;
      }
      SplitJoin(parts[1..]);
    }
  }
}
