/**
 * The query that handleSubmit sends: each free-text field goes through
 * toLowerCase().trimEnd().split(' ').join('+'), and the three parameters are appended to the
 * fixed schedule endpoint.
 */
module Query {
  import opened Wrappers
  import opened JsString

  /** toLowerCase on one character, for the ASCII letters; every other character is kept. */
  function LowerChar(c: char): (d: char)
    ensures 'A' <= c <= 'Z' ==> 'a' <= d <= 'z' && d as int == c as int + 32
    ensures !('A' <= c <= 'Z') ==> d == c
  {
    if 'A' <= c <= 'Z' then (c as int + 32) as char else c
  }

  /** String.prototype.toLowerCase restricted to ASCII case mapping. */
  function Lower(s: string): (r: string)
    ensures |r| == |s| && forall i :: 0 <= i < |s| ==> r[i] == LowerChar(s[i])
  {
    seq(|s|, i requires 0 <= i < |s| => LowerChar(s[i]))
  }

  /** A lowered text holds no ASCII capital. */
  lemma LowerNoCapital(s: string)
    ensures forall i :: 0 <= i < |Lower(s)| ==> !('A' <= Lower(s)[i] <= 'Z')
  {
  }

  /** Lowering leaves a text unchanged exactly when it holds no ASCII capital. */
  lemma LowerFixedIff(s: string)
    ensures Lower(s) == s <==> forall i :: 0 <= i < |s| ==> !('A' <= s[i] <= 'Z')
  {
    if Lower(s) == s {
      forall i | 0 <= i < |s| ensures !('A' <= s[i] <= 'Z') {
        assert Lower(s)[i] == s[i];
      }
    }
  }

  /** Lowering twice is lowering once. */
  lemma LowerIdempotent(s: string)
    ensures Lower(Lower(s)) == Lower(s)
  {
    LowerNoCapital(s);
    LowerFixedIff(Lower(s));
  }

  /** String.prototype.split with a one-character separator: the maximal runs between
      separators, in order, including empty ones; never an empty list. */
  function Split(s: string, sep: char): (parts: seq<string>)
    ensures |parts| >= 1
    decreases |s|
  {
    if s == [] then [[]]
    else
      var rest := Split(s[1..], sep);
      if s[0] == sep then [[]] + rest
      else [[s[0]] + rest[0]] + rest[1..]
  }

  /** Array.prototype.join with a one-character separator. */
  function Join(parts: seq<string>, sep: char): string
    decreases |parts|
  {
    if |parts| == 0 then []
    else if |parts| == 1 then parts[0]
    else parts[0] + [sep] + Join(parts[1..], sep)
  }

  /** Reference definition: every occurrence of one character replaced by another. */
  function Replace(s: string, from: char, to: char): (r: string)
    ensures |r| == |s|
    ensures forall i :: 0 <= i < |s| ==> r[i] == if s[i] == from then to else s[i]
  {
    seq(|s|, i requires 0 <= i < |s| => if s[i] == from then to else s[i])
  }

  /** The normalisation handleSubmit applies to the start and destination texts. */
  function Normalize(s: string): string {
    Join(Split(TrimEnd(Lower(s)), ' '), '+')
  }

  /** The fixed endpoint every query is sent to. */
  const BaseUrl: string := "https://busapi.amithv.xyz/api/v1/schedules?"

  /** The URL handleSubmit requests: the normalised texts and the confirmed time, verbatim. */
  function QueryUrl(start: string, destination: string, time: string): string {
    BaseUrl + "departure=" + Normalize(start) + "&destination=" + Normalize(destination)
    + "&time=" + time
  }

  /** Reads the three parameters back out of a URL built on BaseUrl; None when it has some
      other shape. */
  function ParseQuery(url: string): Option<(string, string, string)> {
    if !(BaseUrl <= url) then None
    else
      var fields := Split(url[|BaseUrl|..], '&');
      if |fields| == 3 && "departure=" <= fields[0] && "destination=" <= fields[1]
         && "time=" <= fields[2]
      then Some((fields[0][|"departure="|..], fields[1][|"destination="|..],
                 fields[2][|"time="|..]))
      else None
  }

  /** No part of a split holds the separator. */
  lemma {:induction false} SplitPartsFree(s: string, sep: char)
    ensures forall k :: 0 <= k < |Split(s, sep)| ==> sep !in Split(s, sep)[k]
    decreases |s|
  {
    if s != [] {
      SplitPartsFree(s[1..], sep);
    }
  }

  /** Splitting then joining on the same separator gives the string back. */
  lemma {:induction false} JoinSplitIdentity(s: string, sep: char)
    ensures Join(Split(s, sep), sep) == s
    decreases |s|
  {
    JoinSplitReplace(s, sep, sep);
    assert Replace(s, sep, sep) == s;
  }

  /** split(a).join(b) replaces every a by b. */
  lemma {:induction false} JoinSplitReplace(s: string, a: char, b: char)
    ensures Join(Split(s, a), b) == Replace(s, a, b)
    decreases |s|
  {
    if s != [] {
      var rest := Split(s[1..], a);
      JoinSplitReplace(s[1..], a, b);
      ReplaceCons(s, a, b);
      if s[0] == a {
        JoinEmptyFirst(rest, b);
      } else {
        JoinExtendFirst(s[0], rest, b);
      }
    }
  }

  lemma ReplaceCons(s: string, a: char, b: char)
    requires s != []
    ensures Replace(s, a, b) == [if s[0] == a then b else s[0]] + Replace(s[1..], a, b)
  {
  }

  /** An empty first part contributes only the separator after it. */
  lemma JoinEmptyFirst(rest: seq<string>, b: char)
    requires |rest| >= 1
    ensures Join([[]] + rest, b) == [b] + Join(rest, b)
  {
    assert ([[]] + rest)[1..] == rest;
  }

  /** A character added to the front of the first part comes first in the join. */
  lemma JoinExtendFirst(c: char, rest: seq<string>, b: char)
    requires |rest| >= 1
    ensures Join([[c] + rest[0]] + rest[1..], b) == [c] + Join(rest, b)
  {
    var parts := [[c] + rest[0]] + rest[1..];
    if |rest| > 1 {
      assert parts[1..] == rest[1..];
    }
  }

  /** Splitting a + [sep] + b, where a holds no separator, gives a and then the parts of b. */
  lemma {:induction false} SplitAfterFirst(x: string, sep: char, y: string)
    requires sep !in x
    ensures Split(x + [sep] + y, sep) == [x] + Split(y, sep)
    decreases |x|
  {
    if x == [] {
      assert [] + [sep] + y == [sep] + y;
      assert ([sep] + y)[1..] == y;
    } else {
      SplitAfterFirst(x[1..], sep, y);
      assert (x + [sep] + y)[1..] == x[1..] + [sep] + y;
      assert [x[0]] + x[1..] == x;
    }
  }

  /** A string with no separator splits into itself alone. */
  lemma {:induction false} SplitNoSeparator(x: string, sep: char)
    requires sep !in x
    ensures Split(x, sep) == [x]
    decreases |x|
  {
    if x != [] {
      SplitNoSeparator(x[1..], sep);
      assert [x[0]] + x[1..] == x;
    }
  }

  /** Normalisation is the replacement of spaces by '+' in the lower-cased, right-trimmed text. */
  lemma NormalizeIsReplace(s: string)
    ensures Normalize(s) == Replace(TrimEnd(Lower(s)), ' ', '+')
  {
    JoinSplitReplace(TrimEnd(Lower(s)), ' ', '+');
  }

  /** A normalised text holds no space. */
  lemma NormalizeNoSpace(s: string)
    ensures ' ' !in Normalize(s)
  {
    NormalizeIsReplace(s);
    var r := Normalize(s);
    forall i | 0 <= i < |r| ensures r[i] != ' ' { }
  }

  /** A normalised text does not end in white space. */
  lemma NormalizeNoTrailingWhite(s: string)
    ensures Normalize(s) == [] || !IsWhite(Normalize(s)[|Normalize(s)| - 1])
  {
    NormalizeIsReplace(s);
    TrimEndSpec(Lower(s));
  }

  /** Normalisation keeps the length of the lower-cased, right-trimmed text. */
  lemma NormalizeLength(s: string)
    ensures |Normalize(s)| == |TrimEnd(Lower(s))| && |TrimEnd(Lower(s))| <= |s|
  {
    NormalizeIsReplace(s);
  }

  /** Normalisation holds no upper-case ASCII letter. */
  lemma NormalizeLowerCase(s: string)
    ensures forall i :: 0 <= i < |Normalize(s)| ==> !('A' <= Normalize(s)[i] <= 'Z')
  {
    NormalizeIsReplace(s);
    TrimEndSpec(Lower(s));
    var t := TrimEnd(Lower(s));
    assert forall i :: 0 <= i < |t| ==> t[i] == Lower(s)[i];
  }

  /** Normalising twice is normalising once. */
  lemma NormalizeIdempotent(s: string)
    ensures Normalize(Normalize(s)) == Normalize(s)
  {
    var n := Normalize(s);
    NormalizeLowerCase(s);
    NormalizeNoSpace(s);
    NormalizeNoTrailingWhite(s);
    assert Lower(n) == n;
    assert TrimEnd(n) == n;
    JoinSplitIdentity(n, ' ');
    SplitNoSeparator(n, ' ');
    JoinSplitReplace(n, ' ', '+');
    assert Replace(n, ' ', '+') == n;
  }

  /** Normalisation turns no character into '&'. */
  lemma NormalizeNoAmpersand(s: string)
    requires '&' !in s
    ensures '&' !in Normalize(s)
  {
    NormalizeIsReplace(s);
    TrimEndSpec(Lower(s));
    var t := TrimEnd(Lower(s));
    assert forall i :: 0 <= i < |t| ==> t[i] == LowerChar(s[i]);
  }

  /** Three fields joined by '&', none holding '&', split back into those three fields. */
  lemma SplitThree(f0: string, f1: string, f2: string)
    requires '&' !in f0 && '&' !in f1 && '&' !in f2
    ensures Split(f0 + "&" + f1 + "&" + f2, '&') == [f0, f1, f2]
  {
    assert f0 + "&" + f1 + "&" + f2 == f0 + ['&'] + (f1 + ['&'] + f2);
    SplitAfterFirst(f0, '&', f1 + ['&'] + f2);
    SplitAfterFirst(f1, '&', f2);
    SplitNoSeparator(f2, '&');
  }

  /** A key followed by a value without '&' holds no '&'. */
  lemma KeyValueNoAmpersand(key: string, value: string)
    requires '&' !in key && '&' !in value
    ensures '&' !in key + value
  {
  }

  /** ParseQuery reads back any three '&'-free values placed in the query. */
  lemma ParseQueryParts(dep: string, dest: string, time: string)
    requires '&' !in dep && '&' !in dest && '&' !in time
    ensures ParseQuery(BaseUrl + "departure=" + dep + "&destination=" + dest + "&time=" + time)
      == Some((dep, dest, time))
  {
    var f0, f1, f2 := "departure=" + dep, "destination=" + dest, "time=" + time;
    KeyValueNoAmpersand("departure=", dep);
    KeyValueNoAmpersand("destination=", dest);
    KeyValueNoAmpersand("time=", time);
    var url := BaseUrl + "departure=" + dep + "&destination=" + dest + "&time=" + time;
    assert url == BaseUrl + (f0 + "&" + f1 + "&" + f2);
    assert url[|BaseUrl|..] == f0 + "&" + f1 + "&" + f2;
    SplitThree(f0, f1, f2);
    assert f0[|"departure="|..] == dep;
    assert f1[|"destination="|..] == dest;
    assert f2[|"time="|..] == time;
  }

  /** The query carries the normalised texts and the time unchanged: when none of the three
      inputs holds '&', they are read back from the URL exactly. */
  lemma QueryUrlRoundTrip(start: string, destination: string, time: string)
    requires '&' !in start && '&' !in destination && '&' !in time
    ensures ParseQuery(QueryUrl(start, destination, time))
      == Some((Normalize(start), Normalize(destination), time))
  {
    NormalizeNoAmpersand(start);
    NormalizeNoAmpersand(destination);
    ParseQueryParts(Normalize(start), Normalize(destination), time);
  }

  /** A text with no space and no trailing white space only has its ASCII letters lowered. */
  lemma NormalizeWord(s: string)
    requires ' ' !in s && (s == [] || !IsWhite(LowerChar(s[|s| - 1])))
    ensures Normalize(s) == Lower(s)
  {
    var l := Lower(s);
    assert TrimEnd(l) == l;
    assert ' ' !in l;
    SplitNoSeparator(l, ' ');
  }

  /** "MG Rd " is sent as "mg+rd": lowered, its trailing space dropped and the inner one turned
      into '+'. */
  lemma NormalizeMgRd()
    ensures Normalize("MG Rd ") == "mg+rd"
  {
    var l := Lower("MG Rd ");
    assert l == "mg rd ";
    assert TrimEnd(l) == "mg rd";
    NormalizeIsReplace("MG Rd ");
    assert Replace("mg rd", ' ', '+') == "mg+rd";
  }

  /** "Hsr" is sent as "hsr". */
  lemma NormalizeHsr()
    ensures Normalize("Hsr") == "hsr"
  {
    NormalizeWord("Hsr");
    assert Lower("Hsr") == "hsr";
  }

  /** The query for start "MG Rd ", destination "Hsr" and time "8:30" carries
      departure=mg+rd, destination=hsr and time=8:30. */
  lemma ExampleQuery()
    ensures ParseQuery(QueryUrl("MG Rd ", "Hsr", "8:30")) == Some(("mg+rd", "hsr", "8:30"))
  {
    NormalizeMgRd();
    NormalizeHsr();
    QueryUrlRoundTrip("MG Rd ", "Hsr", "8:30");
  }
}
