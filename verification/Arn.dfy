/** Resource names: splitting, printing and component-wise matching. */
module Arns {
  import opened Common
  import opened Wildcard
  import opened Policies

  datatype ParsedArn = ParsedArn(
    partition: string, service: string, region: string, account: string, resource: string)

  /** The position of the first colon, or the length of the text. */
  function FirstColon(s: string): (i: nat)
    ensures i <= |s| && ':' !in s[..i]
    ensures i < |s| ==> s[i] == ':'
  {
    if s == "" || s[0] == ':' then 0
    else
      assert s[..1 + FirstColon(s[1..])] == [s[0]] + s[1..][..FirstColon(s[1..])];
      1 + FirstColon(s[1..])
  }

  /** At most `n` parts; the last one keeps whatever colons are left. */
  function SplitN(s: string, n: nat): seq<string>
    requires n > 0
  {
    var i := FirstColon(s);
    if n == 1 || i == |s| then [s] else [s[..i]] + SplitN(s[i + 1..], n - 1)
  }

  function Parse(arn: string): Option<ParsedArn> {
    if !StartsWith(arn, "arn:") then None
    else
      var parts := SplitN(arn, 6);
      if |parts| < 6 then None
      else Some(ParsedArn(parts[1], parts[2], parts[3], parts[4], parts[5]))
  }

  function Parts(arn: ParsedArn): seq<string> {
    ["arn", arn.partition, arn.service, arn.region, arn.account, arn.resource]
  }

  /** The text of a parsed name: its parts rejoined with colons. */
  function Print(arn: ParsedArn): string {
    JoinWith(Parts(arn), ":")
  }

  /** All parts but the last are free of colons. */
  predicate ColonFree(parts: seq<string>) {
    forall i :: 0 <= i < |parts| - 1 ==> ':' !in parts[i]
  }

  lemma FirstColonIs(s: string, head: string, tail: string)
    requires s == head + ":" + tail && ':' !in head
    ensures FirstColon(s) == |head|
  {
    assert s[|head|] == ':';
    assert forall i :: 0 <= i < |head| ==> s[i] == head[i];
    var before := s[..FirstColon(s)];
    assert forall i :: 0 <= i < |before| ==> before[i] == s[i] != ':';
  }

  /** Rejoining what was split gives the text back. */
  lemma {:induction false} SplitThenJoin(s: string, n: nat)
    requires n > 0
    ensures SplitN(s, n) != [] && JoinWith(SplitN(s, n), ":") == s && ColonFree(SplitN(s, n))
  {
    var i := FirstColon(s);
    if n > 1 && i < |s| {
      SplitThenJoin(s[i + 1..], n - 1);
      JoinCons(s[..i], SplitN(s[i + 1..], n - 1));
      hide FirstColon, JoinWith;
      assert s == s[..i] + ":" + s[i + 1..];
    }
  }

  lemma JoinCons(head: string, tail: seq<string>)
    requires tail != []
    ensures JoinWith([head] + tail, ":") == head + ":" + JoinWith(tail, ":")
    ensures ':' !in head && ColonFree(tail) <==> ColonFree([head] + tail)
  {
    var parts := [head] + tail;
    assert parts[1..] == tail;
    assert forall k :: 0 <= k < |tail| ==> tail[k] == parts[k + 1];
    assert ColonFree(parts) ==> ':' !in parts[0];
  }

  /** Splitting what was joined gives the parts back. */
  lemma {:induction false} JoinThenSplit(parts: seq<string>)
    requires parts != [] && ColonFree(parts)
    ensures SplitN(JoinWith(parts, ":"), |parts|) == parts
  {
    if |parts| > 1 {
      var s, head, tail := JoinWith(parts, ":"), parts[0], parts[1..];
      assert parts == [head] + tail;
      JoinCons(head, tail);
      JoinThenSplit(tail);
      hide JoinWith;
      FirstColonIs(s, head, JoinWith(tail, ":"));
      hide FirstColon;
      assert s[..|head|] == head && s[|head| + 1..] == JoinWith(tail, ":");
    }
  }

  lemma {:induction false} SplitBound(s: string, n: nat)
    requires n > 0
    ensures 0 < |SplitN(s, n)| <= n
  {
    var i := FirstColon(s);
    if n > 1 && i < |s| {
      SplitBound(s[i + 1..], n - 1);
    }
  }

  /** Parsing accepts exactly the printed forms of the names whose first four components have
      no colon, and gives back the name that was printed. */
  lemma ParseExact(s: string, arn: ParsedArn)
    ensures Parse(s) == Some(arn) <==> s == Print(arn) && ColonFree(Parts(arn))
  {
    hide FirstColon;
    if Parse(s) == Some(arn) {
      var parts := SplitN(s, 6);
      SplitBound(s, 6);
      SplitThenJoin(s, 6);
      FirstColonIs(s, parts[0], JoinWith(parts[1..], ":"));
      assert s == "arn" + ":" + s[4..];
      FirstColonIs(s, "arn", s[4..]);
      assert parts[0] == s[..3] == "arn";
      assert |parts| == 6;
      assert parts == Parts(arn);
    }
    if s == Print(arn) && ColonFree(Parts(arn)) {
      JoinThenSplit(Parts(arn));
      assert s == "arn:" + JoinWith(Parts(arn)[1..], ":");
    }
  }

  lemma PrintUnfolds(arn: ParsedArn)
    ensures Print(arn) == "arn" + ":" + arn.partition + ":" + arn.service + ":" + arn.region + ":"
                        + arn.account + ":" + arn.resource
  {
    var p := Parts(arn);
    assert p[1..][1..] == p[2..] && p[2..][1..] == p[3..] && p[3..][1..] == p[4..];
    assert p[4..][1..] == p[5..] == [arn.resource];
    assert JoinWith(p[4..], ":") == arn.account + ":" + arn.resource;
    assert JoinWith(p[3..], ":") == arn.region + ":" + JoinWith(p[4..], ":");
    assert JoinWith(p[2..], ":") == arn.service + ":" + JoinWith(p[3..], ":");
    assert JoinWith(p[1..], ":") == arn.partition + ":" + JoinWith(p[2..], ":");
  }

  /** The bucket, with the key after a slash if there is one; `*` for all buckets. */
  function ResourceName(r: Resource): string {
    if r.bucket.None? then "*" else r.bucket.value + if r.key.Some? then "/" + r.key.value else ""
  }

  /** Every printed resource parses back, colons in names and keys included. */
  lemma ResourceParses(r: Resource)
    ensures Parse(ResourceText(r)) == Some(ParsedArn("aws", "s3", "", "", ResourceName(r)))
  {
    var name := ResourceName(r);
    var arn := ParsedArn("aws", "s3", "", "", name);
    PrintUnfolds(arn);
    assert ResourceText(r) == ARN_PREFIX + name;
    ParseExact(ResourceText(r), arn);
  }

  // ----- Matching by component ------------------------------------------------------

  ghost predicate ComponentsMatch(arn: ParsedArn, pattern: ParsedArn) {
    && Denotes(pattern.partition, arn.partition)
    && Denotes(pattern.service, arn.service)
    && Denotes(pattern.region, arn.region)
    && Denotes(pattern.account, arn.account)
    && Denotes(pattern.resource, arn.resource)
  }

  method MatchesArn(arn: ParsedArn, pattern: ParsedArn) returns (matched: bool)
    ensures matched <==> ComponentsMatch(arn, pattern)
  {
    matched := MatchesWildcard(pattern.partition, arn.partition);
    if matched { matched := MatchesWildcard(pattern.service, arn.service); }
    if matched { matched := MatchesWildcard(pattern.region, arn.region); }
    if matched { matched := MatchesWildcard(pattern.account, arn.account); }
    if matched { matched := MatchesWildcard(pattern.resource, arn.resource); }
  }

  lemma {:induction false} JoinDenotes(pats: seq<string>, parts: seq<string>)
    requires |pats| == |parts| > 0
    requires forall i :: 0 <= i < |pats| ==> Denotes(pats[i], parts[i])
    ensures Denotes(JoinWith(pats, ":"), JoinWith(parts, ":"))
  {
    if |pats| > 1 {
      JoinDenotes(pats[1..], parts[1..]);
      SelfDenotes(":");
      ConcatDenotes(pats[0], ":", parts[0], ":");
      ConcatDenotes(pats[0] + ":", JoinWith(pats[1..], ":"), parts[0] + ":", JoinWith(parts[1..], ":"));
    }
  }

  /** Matching by component is at least as strict as matching the whole text. */
  lemma ComponentsImplyText(arn: ParsedArn, pattern: ParsedArn)
    requires ComponentsMatch(arn, pattern)
    ensures Denotes(Print(pattern), Print(arn))
  {
    SelfDenotes("arn");
    JoinDenotes(Parts(pattern), Parts(arn));
  }

  /** It is stricter: a `*` may run across a colon of the text but not of the components. */
  lemma TextIsLooser()
    ensures var arn := ParsedArn("a", "b", "c", "d", "e:f");
            var pattern := ParsedArn("*", "c", "d", "e", "f");
            Denotes(Print(pattern), Print(arn)) && !ComponentsMatch(arn, pattern)
  {
    hide Denotes, Print;
    var arn := ParsedArn("a", "b", "c", "d", "e:f");
    var pattern := ParsedArn("*", "c", "d", "e", "f");
    PrintUnfolds(arn);
    PrintUnfolds(pattern);
    SelfDenotes("arn:");
    SelfDenotes(":c:d:e:f");
    StarDenotes("a:b");
    ConcatDenotes("arn:", "*", "arn:", "a:b");
    assert "arn:" + "*" == "arn:*" && "arn:" + "a:b" == "arn:a:b";
    ConcatDenotes("arn:*", ":c:d:e:f", "arn:a:b", ":c:d:e:f");
    assert Print(pattern) == "arn:*" + ":c:d:e:f";
    assert Print(arn) == "arn:a:b" + ":c:d:e:f";
    LiteralDenotes("c", "b");
  }

  predicate Plain(s: string) {
    '*' !in s && '?' !in s && ':' !in s
  }

  /** The part of a printed name before the resource. */
  function Header(arn: ParsedArn): string {
    "arn" + ":" + arn.partition + ":" + arn.service + ":" + arn.region + ":" + arn.account + ":"
  }

  /** Where the first four components of the pattern have no wildcard, as in every printed S3
      resource, the two ways of matching agree. */
  lemma PlainHeaderAgrees(arn: ParsedArn, pattern: ParsedArn)
    requires Plain(pattern.partition) && Plain(pattern.service)
    requires Plain(pattern.region) && Plain(pattern.account)
    requires ColonFree(Parts(arn))
    ensures ComponentsMatch(arn, pattern) <==> Denotes(Print(pattern), Print(arn))
  {
    if ComponentsMatch(arn, pattern) {
      ComponentsImplyText(arn, pattern);
    }
    if Denotes(Print(pattern), Print(arn)) {
      var text, head := Print(arn), Header(pattern);
      PrintUnfolds(pattern);
      var k := SplitDenotes(head, pattern.resource, text);
      LiteralDenotes(head, text[..k]);
      var other := pattern.(resource := text[k..]);
      PrintUnfolds(other);
      assert text == head + text[k..] == Print(other);
      ParseExact(text, other);
      ParseExact(text, arn);
      SelfDenotes(pattern.partition);
      SelfDenotes(pattern.service);
      SelfDenotes(pattern.region);
      SelfDenotes(pattern.account);
    }
  }
}
