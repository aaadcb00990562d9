/** Helper routines of the HTTP endpoints (helpers/helpers.go): a short-key
    generator, the package-level table of built URL entries, and the
    domain-name check. */
module Helpers {
  import opened Alphabet

  // ---------------------------------------------------------------------
  // Short keys
  // ---------------------------------------------------------------------

  /** `GenerateShortUrlKey`: `n` characters, each drawn from `Charset`. */
  method GenerateShortUrlKey(n: nat) returns (key: string)
    ensures IsCode(key, n)
  {
    var b := new char[n];
    for i := 0 to n
      invariant forall j :: 0 <= j < i ==> IsAlphanumeric(b[j])
    {
      var k := Intn(|Charset|);
      CharsetAt(k);
      b[i] := Charset[k];
    }
    key := b[..];
  }

  // ---------------------------------------------------------------------
  // The global ShortUrls table
  // ---------------------------------------------------------------------

  /** The four-field entry `BuildMap` stores for one short URL. */
  function UrlEntry(longUrl: string, customAlias: string, creationDate: string, expiryDate: string)
    : (m: map<string, string>)
    ensures m.Keys == {"url", "customAlias", "creationDate", "expiryDate"} && |m| == 4
    ensures m["url"] == longUrl && m["customAlias"] == customAlias
    ensures m["creationDate"] == creationDate && m["expiryDate"] == expiryDate
  {
    map["url" := longUrl, "customAlias" := customAlias,
        "creationDate" := creationDate, "expiryDate" := expiryDate]
  }

  /** The package-level variables of `helpers`: the `ShortUrls` table. */
  class Globals {
    var shortUrls: map<string, map<string, string>>

    /** `make(map[string]map[string]string)`: the table starts empty. */
    constructor ()
      ensures shortUrls == map[]
    {
      shortUrls := map[];
    }

    /** Stores a fresh entry under `key`, replacing any entry already there;
        every other key keeps its entry. */
    method BuildMap(key: string, longUrl: string, customAlias: string, creationDate: string, expiryDate: string)
      modifies this
      ensures shortUrls.Keys == old(shortUrls).Keys + {key}
      ensures shortUrls[key] == UrlEntry(longUrl, customAlias, creationDate, expiryDate)
      ensures forall k :: k in old(shortUrls) && k != key ==> shortUrls[k] == old(shortUrls)[k]
    {
      shortUrls := shortUrls[key := UrlEntry(longUrl, customAlias, creationDate, expiryDate)];
    }
  }

  // ---------------------------------------------------------------------
  // Domain names
  // ---------------------------------------------------------------------

  /** `[a-z0-9]` */
  predicate IsLowerAlnum(c: char) {
    'a' <= c <= 'z' || '0' <= c <= '9'
  }

  /** `[a-z0-9-]`: a letter, digit or hyphen, letters in lower case only. */
  predicate IsLdh(c: char) {
    IsLowerAlnum(c) || c == '-'
  }

  /** `[a-z0-9-]{0,61}` */
  predicate IsLdhRun(s: string) {
    |s| <= 61 && forall i :: 0 <= i < |s| ==> IsLdh(s[i])
  }

  /** A label before a dot: `[a-z0-9](?:[a-z0-9-]{0,61}[a-z0-9])?`. */
  predicate IsLabel(l: string) {
    |l| >= 1 && IsLowerAlnum(l[0])
    && (|l| == 1 || (IsLowerAlnum(l[|l| - 1]) && IsLdhRun(l[1..|l| - 1])))
  }

  /** The last label: `[a-z0-9][a-z0-9-]{0,61}[a-z0-9]`. */
  predicate IsFinalLabel(l: string) {
    |l| >= 2 && IsLowerAlnum(l[0]) && IsLowerAlnum(l[|l| - 1]) && IsLdhRun(l[1..|l| - 1])
  }

  /** The label rules spelled out: 1 to 63 characters from `[a-z0-9-]`, not
      starting or ending with a hyphen; the last label needs at least 2. */
  lemma LabelShape(l: string)
    ensures IsLabel(l) <==>
      1 <= |l| <= 63 && l[0] != '-' && l[|l| - 1] != '-' && forall i :: 0 <= i < |l| ==> IsLdh(l[i])
    ensures IsFinalLabel(l) <==> IsLabel(l) && |l| >= 2
  {
    if |l| >= 2 {
      var middle := l[1..|l| - 1];
      assert forall i :: 0 <= i < |middle| ==> middle[i] == l[i + 1];
    }
  }

  /** No label contains a dot. */
  lemma LabelHasNoDot(l: string)
    requires IsLabel(l) || IsFinalLabel(l)
    ensures '.' !in l
  {
    LabelShape(l);
  }

  /** The index of the first `.` in `s` at or after `from`, or `|s|` when
      there is none. */
  function DotFrom(s: string, from: nat): (i: nat)
    requires from <= |s|
    ensures from <= i <= |s|
    ensures i < |s| ==> s[i] == '.'
    ensures forall k :: from <= k < i ==> s[k] != '.'
    decreases |s| - from
  {
    if from == |s| || s[from] == '.' then from else DotFrom(s, from + 1)
  }

  /** The index of the first `.` in `s`, or `|s|` when there is none. */
  function FirstDot(s: string): (i: nat)
    ensures i <= |s|
    ensures i < |s| ==> s[i] == '.'
    ensures forall k :: 0 <= k < i ==> s[k] != '.'
  {
    DotFrom(s, 0)
  }

  /** The dot-separated pieces of `s`, empty pieces included. */
  function Split(s: string): (labels: seq<string>)
    ensures |labels| >= 1
    decreases |s|
  {
    var i := FirstDot(s);
    if i == |s| then [s] else [s[..i]] + Split(s[i + 1..])
  }

  /** The pieces joined back with dots between them. */
  function Join(labels: seq<string>): string
    requires |labels| >= 1
  {
    if |labels| == 1 then labels[0] else labels[0] + "." + Join(labels[1..])
  }

  /** Splitting at the dots and joining again gives the string back. */
  lemma {:induction false} JoinSplit(s: string)
    ensures Join(Split(s)) == s
    decreases |s|
  {
    var i := FirstDot(s);
    if i < |s| {
      var rest := s[i + 1..];
      JoinSplit(rest);
      SplitAtFirstDot(s);
      var tail := Split(rest);
      assert Split(s)[1..] == tail;
      assert Join(Split(s)) == s[..i] + "." + Join(tail);
      assert s == s[..i] + "." + rest;
    } else {
      assert Split(s) == [s];
    }
  }

  /** The first dot of `a + "." + b`, with `a` dot-free, is the one after
      `a`, and it separates `a` from `b`. */
  lemma FirstDotAfterPiece(a: string, b: string)
    requires '.' !in a
    ensures FirstDot(a + "." + b) == |a|
    ensures (a + "." + b)[..|a|] == a && (a + "." + b)[|a| + 1..] == b
  {
    var s := a + "." + b;
    assert forall k :: 0 <= k < |a| ==> s[k] == a[k];
    assert s[|a|] == '.';
  }

  /** Joining dot-free pieces and splitting again gives the pieces back. */
  lemma {:induction false} SplitJoin(labels: seq<string>)
    requires |labels| >= 1
    requires forall j :: 0 <= j < |labels| ==> '.' !in labels[j]
    ensures Split(Join(labels)) == labels
  {
    if |labels| > 1 {
      FirstDotAfterPiece(labels[0], Join(labels[1..]));
      SplitJoin(labels[1..]);
      assert labels == [labels[0]] + labels[1..];
    }
  }

  /** At least two labels, every one but the last an `IsLabel`, the last an
      `IsFinalLabel`. */
  predicate ValidLabels(labels: seq<string>) {
    && |labels| >= 2
    && (forall j :: 0 <= j < |labels| - 1 ==> IsLabel(labels[j]))
    && IsFinalLabel(labels[|labels| - 1])
  }

  /** `IsValidDomainName`, label by label: the dot-separated pieces of the
      name are `ValidLabels`. */
  predicate IsValidDomainName(domainName: string) {
    ValidLabels(Split(domainName))
  }

  /** Putting a label in front of valid labels, or of a single final label,
      gives valid labels; and valid labels come apart that way. */
  lemma ValidLabelsCons(l: string, ls: seq<string>)
    requires |ls| >= 1
    ensures ValidLabels([l] + ls) <==>
      IsLabel(l) && (if |ls| == 1 then IsFinalLabel(ls[0]) else ValidLabels(ls))
  {
    var all := [l] + ls;
    assert forall j :: 0 <= j < |ls| ==> all[j + 1] == ls[j];
    if IsLabel(l) && |ls| >= 2 && ValidLabels(ls) {
      forall j | 0 <= j < |all| - 1
        ensures IsLabel(all[j])
      {
        if j > 0 {
          assert all[j] == ls[j - 1];
        }
      }
    }
    if ValidLabels(all) {
      assert all[0] == l && all[|all| - 1] == ls[|ls| - 1];
      forall j | 0 <= j < |ls| - 1
        ensures IsLabel(ls[j])
      {
        assert ls[j] == all[j + 1];
      }
    }
  }

  /** A string without a dot is a single piece. */
  lemma SplitWithoutDot(s: string)
    requires '.' !in s
    ensures Split(s) == [s]
  {
    assert FirstDot(s) == |s|;
  }

  /** The anchored pattern `^(?:LABEL\.)+FINAL$` read as written: a label,
      a dot, and then either the final label or the pattern again. */
  ghost predicate MatchesPattern(s: string)
    decreases |s|
  {
    exists i :: 0 <= i < |s| && s[i] == '.' && IsLabel(s[..i])
                && (IsFinalLabel(s[i + 1..]) || MatchesPattern(s[i + 1..]))
  }

  /** Where the first dot is, `Split` cuts off the first label. */
  lemma SplitAtFirstDot(s: string)
    requires FirstDot(s) < |s|
    ensures Split(s) == [s[..FirstDot(s)]] + Split(s[FirstDot(s) + 1..])
  {
  }

  /** A valid name is a label, a dot, and then the final label or a valid
      name. */
  lemma ValidTail(s: string)
    requires IsValidDomainName(s)
    ensures FirstDot(s) < |s|
    ensures IsLabel(s[..FirstDot(s)])
    ensures var rest := s[FirstDot(s) + 1..];
      if '.' !in rest then IsFinalLabel(rest) else IsValidDomainName(rest)
  {
    var i := FirstDot(s);
    var rest := s[i + 1..];
    SplitAtFirstDot(s);
    ValidLabelsCons(s[..i], Split(rest));
    if '.' !in rest {
      SplitWithoutDot(rest);
    } else {
      assert FirstDot(rest) < |rest|;
      SplitAtFirstDot(rest);
    }
  }

  /** A label, a dot, and then the final label or a match, is a match. */
  lemma PatternCons(s: string, k: nat)
    requires k < |s| && s[k] == '.' && IsLabel(s[..k])
    requires IsFinalLabel(s[k + 1..]) || MatchesPattern(s[k + 1..])
    ensures MatchesPattern(s)
  {
  }

  /** The label-by-label check accepts only what the anchored pattern
      matches. */
  lemma {:induction false} ValidDomainNameMatches(s: string)
    requires IsValidDomainName(s)
    ensures MatchesPattern(s)
    decreases |s|
  {
    ValidTail(s);
    var i := FirstDot(s);
    if '.' in s[i + 1..] {
      ValidDomainNameMatches(s[i + 1..]);
    }
    PatternCons(s, i);
  }

  /** The first label the pattern matches ends at the first dot. */
  lemma PatternLabelEndsAtFirstDot(s: string, k: nat)
    requires k < |s| && s[k] == '.' && IsLabel(s[..k])
    ensures FirstDot(s) == k
  {
    LabelHasNoDot(s[..k]);
    assert forall m :: 0 <= m < k ==> s[m] == s[..k][m];
  }

  /** A label, a dot, and then a final label or a valid name, make a valid
      name. */
  lemma ValidCons(s: string, k: nat)
    requires k < |s| && s[k] == '.' && IsLabel(s[..k])
    requires IsFinalLabel(s[k + 1..]) || IsValidDomainName(s[k + 1..])
    ensures IsValidDomainName(s)
  {
    PatternLabelEndsAtFirstDot(s, k);
    SplitAtFirstDot(s);
    var rest := s[k + 1..];
    if IsFinalLabel(rest) {
      LabelHasNoDot(rest);
      SplitWithoutDot(rest);
    }
    ValidLabelsCons(s[..k], Split(rest));
  }

  /** The anchored pattern matches only what the label-by-label check
      accepts. */
  lemma {:induction false} MatchesAreValidDomainNames(s: string)
    requires MatchesPattern(s)
    ensures IsValidDomainName(s)
    decreases |s|
  {
    var k :| 0 <= k < |s| && s[k] == '.' && IsLabel(s[..k])
             && (IsFinalLabel(s[k + 1..]) || MatchesPattern(s[k + 1..]));
    if !IsFinalLabel(s[k + 1..]) {
      MatchesAreValidDomainNames(s[k + 1..]);
    }
    ValidCons(s, k);
  }

  /** The label-by-label check and the anchored pattern agree on every
      string. */
  lemma ValidDomainNameIsPattern(s: string)
    ensures IsValidDomainName(s) <==> MatchesPattern(s)
  {
    if IsValidDomainName(s) {
      ValidDomainNameMatches(s);
    }
    if MatchesPattern(s) {
      MatchesAreValidDomainNames(s);
    }
  }

  /** Character by character: only `[a-z0-9.-]`, starting and ending with a
      letter or digit, and every dot between two letters or digits (so no
      empty label and no label that starts or ends with a hyphen). */
  predicate DotsBetweenLabels(s: string) {
    && |s| >= 1 && IsLowerAlnum(s[0]) && IsLowerAlnum(s[|s| - 1])
    && (forall k :: 0 <= k < |s| ==> IsLdh(s[k]) || s[k] == '.')
    && (forall k :: 0 <= k < |s| && s[k] == '.' ==>
          0 < k < |s| - 1 && IsLowerAlnum(s[k - 1]) && IsLowerAlnum(s[k + 1]))
  }

  /** A single label has that shape. */
  lemma LabelIsDotsBetweenLabels(l: string)
    requires IsLabel(l)
    ensures DotsBetweenLabels(l)
  {
    LabelShape(l);
    LabelHasNoDot(l);
  }

  /** A label, a dot and a string of that shape give a string of that shape. */
  lemma ConsDotsBetweenLabels(first: string, rest: string)
    requires IsLabel(first) && DotsBetweenLabels(rest)
    ensures DotsBetweenLabels(first + "." + rest)
  {
    LabelShape(first);
    LabelHasNoDot(first);
    var s := first + "." + rest;
    var i := |first|;
    forall k | 0 <= k < |s|
      ensures IsLdh(s[k]) || s[k] == '.'
      ensures s[k] == '.' ==> 0 < k < |s| - 1 && IsLowerAlnum(s[k - 1]) && IsLowerAlnum(s[k + 1])
    {
      if k < i {
        assert s[k] == first[k];
      } else if k > i {
        assert s[k] == rest[k - i - 1];
        if s[k] == '.' {
          assert s[k - 1] == rest[k - i - 2];
          assert s[k + 1] == rest[k - i];
        }
      } else {
        assert s[k - 1] == first[i - 1] && s[k + 1] == rest[0];
      }
    }
  }

  /** An accepted name contains a dot and has the shape above. */
  lemma {:induction false} AcceptedShape(s: string)
    requires IsValidDomainName(s)
    ensures '.' in s
    ensures DotsBetweenLabels(s)
    decreases |s|
  {
    ValidTail(s);
    var i := FirstDot(s);
    var first, rest := s[..i], s[i + 1..];
    assert s == first + "." + rest;
    if IsFinalLabel(rest) {
      LabelShape(rest);
      LabelIsDotsBetweenLabels(rest);
    } else {
      AcceptedShape(rest);
    }
    ConsDotsBetweenLabels(first, rest);
  }

  /** Any character outside `[a-z0-9.-]`, an upper-case letter among them,
      makes the name invalid wherever it stands. */
  lemma ForeignCharacterRejected(s: string, k: nat)
    requires k < |s| && !IsLdh(s[k]) && s[k] != '.'
    ensures !IsValidDomainName(s)
  {
    if IsValidDomainName(s) {
      AcceptedShape(s);
    }
  }

  /** The last label needs two characters while earlier ones may have one. */
  lemma FinalLabelNeedsTwoCharacters()
    ensures IsValidDomainName("a.bc")
    ensures !IsValidDomainName("ab.c")
  {
    var s := "ab.c";
    assert FirstDot(s) == 2 && s[3..] == "c";
    assert FirstDot("c") == 1;
    if IsValidDomainName(s) {
      ValidTail(s);
    }
  }

  /** A typical host name is accepted. */
  lemma ExampleAccepted()
    ensures IsValidDomainName("example.com")
  {
    var s := "example.com";
    assert s[7] == '.' && s[..7] == "example" && s[8..] == "com";
    ValidCons(s, 7);
  }

  /** A name without a dot, a single label, is refused. */
  lemma SingleLabelRejected(s: string)
    requires '.' !in s
    ensures !IsValidDomainName(s)
  {
    if IsValidDomainName(s) {
      AcceptedShape(s);
    }
  }

  /** A name that starts or ends with anything but a letter or digit (a dot
      or a hyphen, say) is refused. */
  lemma EdgeRejected(s: string)
    requires |s| == 0 || !IsLowerAlnum(s[0]) || !IsLowerAlnum(s[|s| - 1])
    ensures !IsValidDomainName(s)
  {
    if IsValidDomainName(s) {
      AcceptedShape(s);
    }
  }

  /** Two dots in a row, an empty label, make the name invalid. */
  lemma EmptyLabelRejected(s: string, k: nat)
    requires k + 1 < |s| && s[k] == '.' && s[k + 1] == '.'
    ensures !IsValidDomainName(s)
  {
    if IsValidDomainName(s) {
      AcceptedShape(s);
    }
  }

  /** Upper case, a single label, an empty label and a leading hyphen are
      refused. */
  lemma ExamplesRefused()
    ensures !IsValidDomainName("Example.com")
    ensures !IsValidDomainName("localhost")
    ensures !IsValidDomainName("a..com")
    ensures !IsValidDomainName("-a.com")
  {
    ForeignCharacterRejected("Example.com", 0);
    SingleLabelRejected("localhost");
    EmptyLabelRejected("a..com", 1);
    EdgeRejected("-a.com");
  }
}
