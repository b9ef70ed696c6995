/** Tenant slugs and the bucket names made from them. */
module Tenants {
  import opened Common

  function ToLower(c: char): char {
    if 'A' <= c <= 'Z' then c - 'A' + 'a' else c
  }

  predicate IsAlnum(c: char) {
    'a' <= c <= 'z' || 'A' <= c <= 'Z' || '0' <= c <= '9'
  }

  predicate IsSeparator(c: char) {
    c == ' ' || c == '-' || c == '_' || c == '.'
  }

  function TrimStart(s: string): string {
    if s != "" && s[0] == '-' then TrimStart(s[1..]) else s
  }

  function TrimEnd(s: string): string {
    if s != "" && s[|s| - 1] == '-' then TrimEnd(s[..|s| - 1]) else s
  }

  /** The text built so far, and whether its last character is a dash. */
  function Squeeze(name: string): (string, bool) {
    if name == "" then ("", false)
    else
      var (out, prevDash) := Squeeze(name[..|name| - 1]);
      var c := ToLower(name[|name| - 1]);
      if IsAlnum(c) then (out + [c], false)
      else if IsSeparator(c) && !prevDash then (out + "-", true)
      else (out, prevDash)
  }

  function Slug(name: string): string {
    var trimmed := TrimEnd(TrimStart(Squeeze(name).0));
    if trimmed == "" then "tenant" else trimmed
  }

  method MakeSlug(name: string) returns (slug: string)
    ensures slug == Slug(name)
  {
    var out, prevDash := "", false;
    for i := 0 to |name|
      invariant (out, prevDash) == Squeeze(name[..i])
    {
      assert name[..i + 1][..i] == name[..i];
      var c := ToLower(name[i]);
      if IsAlnum(c) {
        out, prevDash := out + [c], false;
      } else if IsSeparator(c) && !prevDash {
        out, prevDash := out + "-", true;
      }
    }
    assert name[..|name|] == name;
    var trimmed := TrimEnd(TrimStart(out));
    return if trimmed == "" then "tenant" else trimmed;
  }

  // ----- Shape ----------------------------------------------------------------------

  predicate IsSlugChar(c: char) {
    'a' <= c <= 'z' || '0' <= c <= '9' || c == '-'
  }

  /** Slug characters only and no two dashes in a row. */
  ghost predicate Tidy(s: string) {
    && (forall i :: 0 <= i < |s| ==> IsSlugChar(s[i]))
    && (forall i :: 0 <= i < |s| - 1 ==> !(s[i] == '-' && s[i + 1] == '-'))
  }

  /** Lowercase letters, digits and single inner dashes. */
  ghost predicate Normal(s: string) {
    s != "" && Tidy(s) && s[0] != '-' && s[|s| - 1] != '-'
  }

  lemma {:induction false} SqueezeTidy(name: string)
    ensures var (out, prevDash) := Squeeze(name);
            Tidy(out) && (prevDash <==> out != "" && out[|out| - 1] == '-')
  {
    if name != "" {
      SqueezeTidy(name[..|name| - 1]);
    }
  }

  lemma {:induction false} TrimStartTidy(s: string)
    requires Tidy(s)
    ensures Tidy(TrimStart(s)) && (TrimStart(s) != "" ==> TrimStart(s)[0] != '-')
  {
    if s != "" && s[0] == '-' {
      TrimStartTidy(s[1..]);
    }
  }

  lemma {:induction false} TrimEndTidy(s: string)
    requires Tidy(s)
    ensures Tidy(TrimEnd(s)) && (TrimEnd(s) != "" ==> TrimEnd(s)[|TrimEnd(s)| - 1] != '-')
    ensures TrimEnd(s) <= s
  {
    if s != "" && s[|s| - 1] == '-' {
      TrimEndTidy(s[..|s| - 1]);
    }
  }

  /** Whatever the name, the slug is well formed. */
  lemma SlugNormal(name: string)
    ensures Normal(Slug(name))
  {
    SqueezeTidy(name);
    TrimStartTidy(Squeeze(name).0);
    TrimEndTidy(TrimStart(Squeeze(name).0));
  }

  lemma {:induction false} SqueezeSame(s: string)
    requires Tidy(s)
    ensures Squeeze(s) == (s, s != "" && s[|s| - 1] == '-')
  {
    if s != "" {
      var n := |s| - 1;
      SqueezeSame(s[..n]);
      assert IsSlugChar(s[n]);
      assert s == s[..n] + [s[n]];
      if n > 0 { assert !(s[n - 1] == '-' && s[n - 1 + 1] == '-'); }
    }
  }

  /** The slugs are exactly the texts that slugging leaves alone; so slugging twice is slugging once. */
  lemma SlugFixed(s: string)
    ensures Slug(s) == s <==> Normal(s)
    ensures Slug(Slug(s)) == Slug(s)
  {
    SlugNormal(s);
    SqueezeSame(Slug(s));
    if Normal(s) {
      SqueezeSame(s);
    }
  }

  // ----- Content --------------------------------------------------------------------

  /** The letters and digits of a text, in lower case. */
  function Letters(s: string): string {
    if s == "" then ""
    else Letters(s[..|s| - 1]) + if IsAlnum(s[|s| - 1]) then [ToLower(s[|s| - 1])] else ""
  }

  lemma {:induction false} SqueezeLetters(name: string)
    ensures Letters(Squeeze(name).0) == Letters(name)
  {
    if name != "" {
      var n := |name| - 1;
      SqueezeLetters(name[..n]);
      var out := Squeeze(name[..n]).0;
      assert forall c :: (out + [c])[..|out|] == out;
    }
  }

  lemma {:induction false} LettersCons(c: char, s: string)
    requires !IsAlnum(c)
    ensures Letters([c] + s) == Letters(s)
  {
    if s != "" {
      assert ([c] + s)[..|s|] == [c] + s[..|s| - 1];
      LettersCons(c, s[..|s| - 1]);
    } else {
      assert ([c] + s)[..0] == "";
    }
  }

  lemma {:induction false} TrimLetters(s: string)
    ensures Letters(TrimStart(s)) == Letters(s) && Letters(TrimEnd(s)) == Letters(s)
  {
    if s != "" {
      TrimLetters(s[1..]);
      TrimLetters(s[..|s| - 1]);
      if s[0] == '-' {
        assert s == ['-'] + s[1..];
        LettersCons('-', s[1..]);
      }
    }
  }

  lemma {:induction false} SomeLetter(s: string)
    requires s != "" && Tidy(s) && s[0] != '-'
    ensures Letters(s) != ""
  {
    if |s| > 1 {
      SomeLetter(s[..|s| - 1]);
    } else {
      assert IsSlugChar(s[0]);
    }
  }

  /** The slug keeps the name's letters and digits, in order; only a name without any becomes the
      default. */
  lemma SlugKeepsLetters(name: string)
    ensures Letters(name) != "" ==> Letters(Slug(name)) == Letters(name)
    ensures Letters(name) == "" ==> Slug(name) == "tenant"
  {
    var out := Squeeze(name).0;
    var trimmed := TrimEnd(TrimStart(out));
    SqueezeTidy(name);
    TrimStartTidy(out);
    TrimEndTidy(TrimStart(out));
    SqueezeLetters(name);
    TrimLetters(out);
    TrimLetters(TrimStart(out));
    if trimmed != "" {
      SomeLetter(trimmed);
    }
  }

  // ----- Words ----------------------------------------------------------------------

  /** The words of a name, with the one still being read at the end: blanks, dashes, underscores and
      dots end a word, letters and digits make it up in lower case, and anything else is ignored. */
  function Reading(name: string): (seq<string>, string) {
    if name == "" then ([], "") else Read(Reading(name[..|name| - 1]), name[|name| - 1])
  }

  function Read(so: (seq<string>, string), c: char): (seq<string>, string) {
    var (words, word) := so;
    if 'a' <= c <= 'z' || '0' <= c <= '9' then (words, word + [c])
    else if 'A' <= c <= 'Z' then (words, word + [c - 'A' + 'a'])
    else if c in {' ', '-', '_', '.'} then (Finished(words, word), "")
    else (words, word)
  }

  lemma ReadStep(words: seq<string>, word: string, c: char)
    ensures IsAlnum(ToLower(c)) ==> Read((words, word), c) == (words, word + [ToLower(c)]) && ToLower(c) != '-'
    ensures !IsAlnum(ToLower(c)) ==>
      Read((words, word), c) == if IsSeparator(ToLower(c)) then (Finished(words, word), "") else (words, word)
  {}

  function Finished(words: seq<string>, word: string): seq<string> {
    if word == "" then words else words + [word]
  }

  function Words(name: string): seq<string> {
    var (words, word) := Reading(name);
    Finished(words, word)
  }

  predicate IsPlainWord(w: string) {
    w != "" && forall i :: 0 <= i < |w| ==> w[i] != '-'
  }

  lemma JoinSnoc(words: seq<string>, word: string)
    ensures JoinWith(words + [word], "-") == if words == [] then word else JoinWith(words, "-") + "-" + word
  {
    if words != [] {
      assert (words + [word])[1..] == words[1..] + [word];
      JoinSnoc(words[1..], word);
    }
  }

  /** What has been built so far is the words read so far, a dash before them if the name began with a
      separator, and a dash after them if the last word is finished. */
  ghost predicate Built(out: string, words: seq<string>, word: string, lead: bool) {
    && (forall i :: 0 <= i < |words| ==> IsPlainWord(words[i]))
    && (word == "" || IsPlainWord(word))
    && out == Lead(lead) + Body(words, word)
  }

  function Lead(lead: bool): string { if lead then "-" else "" }

  function Body(words: seq<string>, word: string): string {
    if words == [] then word else JoinWith(words, "-") + "-" + word
  }

  lemma {:induction false} SqueezeBuilds(name: string) returns (lead: bool)
    ensures Built(Squeeze(name).0, Reading(name).0, Reading(name).1, lead)
  {
    if name == "" {
      lead := false;
    } else {
      hide Built, Tidy, Read, ToLower, IsAlnum, IsSeparator;
      var n := |name| - 1;
      lead := SqueezeBuilds(name[..n]);
      SqueezeTidy(name[..n]);
      var (out, prevDash) := Squeeze(name[..n]);
      var (words, word) := Reading(name[..n]);
      var c := ToLower(name[n]);
      ReadStep(words, word, name[n]);
      if IsAlnum(c) {
        BuiltLetter(out, words, word, lead, c);
      } else if IsSeparator(c) {
        lead := BuiltSeparator(out, words, word, lead);
      }
    }
  }

  /** A letter or digit goes on with the word or begins a new one. */
  lemma BuiltLetter(out: string, words: seq<string>, word: string, lead: bool, c: char)
    requires Built(out, words, word, lead) && c != '-'
    ensures Built(out + [c], words, word + [c], lead)
  {
    assert IsPlainWord(word + [c]);
    hide JoinWith, IsPlainWord;
    assert Body(words, word + [c]) == Body(words, word) + [c];
  }

  /** A separator ends the word, and is written as a dash unless there is one already. */
  lemma BuiltSeparator(out: string, words: seq<string>, word: string, lead: bool) returns (lead': bool)
    requires Built(out, words, word, lead)
    ensures Built(if out != "" && out[|out| - 1] == '-' then out else out + "-", Finished(words, word), "", lead')
  {
    lead' := lead || Finished(words, word) == [];
    hide JoinWith;
    if word == "" {
      assert words != [] ==> out[|out| - 1] == '-';
    } else {
      JoinSnoc(words, word);
      assert Body(words + [word], "") == Body(words, word) + "-";
      assert out[|out| - 1] == word[|word| - 1] != '-';
    }
  }

  lemma LastOfJoin(words: seq<string>)
    requires words != [] && forall i :: 0 <= i < |words| ==> IsPlainWord(words[i])
    ensures var s := JoinWith(words, "-"); s != "" && s[0] != '-' && s[|s| - 1] != '-'
  {
    if |words| > 1 {
      LastOfJoin(words[1..]);
    }
  }

  /** The slug is the words of the name joined by dashes. */
  lemma SlugIsWords(name: string)
    ensures Slug(name) == if Words(name) == [] then "tenant" else JoinWith(Words(name), "-")
  {
    var lead := SqueezeBuilds(name);
    var (words, word) := Reading(name);
    BodyTrims(words, word);
    TrimLead(Body(words, word), lead);
    hide Squeeze, Reading, TrimStart, TrimEnd, JoinWith;
  }

  lemma BodyTrims(words: seq<string>, word: string)
    requires forall i :: 0 <= i < |words| ==> IsPlainWord(words[i])
    requires word == "" || IsPlainWord(word)
    ensures var s := Body(words, word); s == "" || s[0] != '-'
    ensures TrimEnd(Body(words, word)) == JoinWith(Finished(words, word), "-")
    ensures JoinWith(Finished(words, word), "-") == "" <==> Finished(words, word) == []
  {
    var all, body := Finished(words, word), Body(words, word);
    if word != "" {
      JoinSnoc(words, word);
    }
    if all != [] {
      LastOfJoin(all);
    }
    hide JoinWith;
    if word == "" && words != [] {
      assert body[..|body| - 1] == JoinWith(words, "-");
    }
  }

  lemma TrimLead(s: string, lead: bool)
    requires s == "" || s[0] != '-'
    ensures TrimStart((if lead then "-" else "") + s) == s
  {
    if lead {
      assert ("-" + s)[1..] == s;
    } else {
      assert "" + s == s;
    }
  }

  // ----- Bucket names ---------------------------------------------------------------

  function PrefixedBucketName(tenantSlug: string, baseName: string): string {
    Slug(tenantSlug) + "-" + Slug(baseName)
  }

  /** The position of the first tenant whose slug and a dash begin the bucket name. */
  function TenantFromBucketName(bucket: string, slugs: seq<string>): (found: Option<nat>)
    ensures found.Some? ==> found.value < |slugs| && StartsWith(bucket, slugs[found.value] + "-")
    ensures forall j :: 0 <= j < (if found.Some? then found.value else |slugs|) ==>
                          !StartsWith(bucket, slugs[j] + "-")
  {
    if slugs == [] then None
    else
      var n := |slugs| - 1;
      var earlier := TenantFromBucketName(bucket, slugs[..n]);
      if earlier.Some? then earlier
      else if StartsWith(bucket, slugs[n] + "-") then Some(n)
      else None
  }

  ghost predicate PrefixFree(slugs: seq<string>) {
    forall i, j :: 0 <= i < |slugs| && 0 <= j < |slugs| && i != j ==>
                     !StartsWith(slugs[j] + "-", slugs[i] + "-")
  }

  /** Every bucket made for a tenant is found to be that tenant's. */
  ghost predicate LookupsFaithful(slugs: seq<string>) {
    forall i, name :: 0 <= i < |slugs| ==>
      TenantFromBucketName(PrefixedBucketName(slugs[i], name), slugs) == Some(i)
  }

  lemma PrefixesNest(x: string, y: string, s: string)
    requires StartsWith(s, x) && StartsWith(s, y)
    ensures StartsWith(x, y) || StartsWith(y, x)
  {}

  lemma LookupFinds(slugs: seq<string>, i: nat, name: string)
    requires forall k :: 0 <= k < |slugs| ==> Normal(slugs[k])
    requires PrefixFree(slugs) && i < |slugs|
    ensures TenantFromBucketName(PrefixedBucketName(slugs[i], name), slugs) == Some(i)
  {
    SlugFixed(slugs[i]);
    var bucket := PrefixedBucketName(slugs[i], name);
    assert bucket == (slugs[i] + "-") + Slug(name);
    assert StartsWith(bucket, slugs[i] + "-");
    forall j | 0 <= j < |slugs| && StartsWith(bucket, slugs[j] + "-") ensures j == i {
      PrefixesNest(slugs[i] + "-", slugs[j] + "-", bucket);
    }
  }

  /** A base name that makes a bucket of one tenant look like another's. */
  lemma LookupConfused(slugs: seq<string>, i: nat, j: nat) returns (k: nat, name: string)
    requires forall k :: 0 <= k < |slugs| ==> Normal(slugs[k])
    requires i < |slugs| && j < |slugs| && i != j && StartsWith(slugs[j] + "-", slugs[i] + "-")
    ensures k < |slugs| && TenantFromBucketName(PrefixedBucketName(slugs[k], name), slugs) != Some(k)
  {
    if i < j || slugs[i] == slugs[j] {
      k, name := if i < j then j else i, "x";
      var other := if i < j then i else j;
      SlugFixed(slugs[k]);
      assert StartsWith(slugs[k] + "-" + Slug(name), slugs[k] + "-");
    } else {
      k := i;
      name := Lookalike(slugs[i], slugs[j]);
    }
  }

  lemma Lookalike(s: string, t: string) returns (name: string)
    requires Normal(s) && Normal(t) && s != t && StartsWith(t + "-", s + "-")
    ensures StartsWith(PrefixedBucketName(s, name), t + "-")
  {
    assert |s| <= |t|;
    assert forall i :: 0 <= i < |s| ==> s[i] == (s + "-")[i] == (t + "-")[i] == t[i];
    assert s == t[..|s|];
    assert |s| < |t| && t[|s|] == '-' by {
      assert t[..|t|] == t;
      assert (t + "-")[|s|] == '-';
    }
    var rest := t[|s| + 1..];
    assert t == s + "-" + rest;
    name := rest + "-x";
    RestNormal(s, rest);
    SlugFixed(name);
    SlugFixed(s);
    assert PrefixedBucketName(s, name) == t + "-" + "x";
  }

  lemma RestNormal(s: string, rest: string)
    requires Normal(s + "-" + rest)
    ensures Normal(rest + "-x")
  {
    var all, name := s + "-" + rest, rest + "-x";
    assert rest != "" by { assert all[|s|] == '-'; }
    forall i | 0 <= i < |rest| ensures rest[i] == all[|s| + 1 + i] && IsSlugChar(rest[i]) {
      assert IsSlugChar(all[|s| + 1 + i]);
    }
    assert all[|s|] == '-' && all[|s| + 1] == rest[0];
    assert rest[|rest| - 1] == all[|all| - 1];
    forall i | 0 <= i < |name| - 1 ensures !(name[i] == '-' && name[i + 1] == '-') {
      if i + 1 < |rest| {
        assert !(all[|s| + 1 + i] == '-' && all[|s| + 1 + i + 1] == '-');
      }
    }
  }

  /** For tenants with well-formed slugs, lookups are faithful for all tenants and base names
      exactly when no slug with its dash begins another one's. */
  lemma LookupsFaithfulIff(slugs: seq<string>)
    requires forall k :: 0 <= k < |slugs| ==> Normal(slugs[k])
    ensures LookupsFaithful(slugs) <==> PrefixFree(slugs)
  {
    if PrefixFree(slugs) {
      forall i, name | 0 <= i < |slugs|
        ensures TenantFromBucketName(PrefixedBucketName(slugs[i], name), slugs) == Some(i)
      {
        LookupFinds(slugs, i, name);
      }
    } else {
      var i, j :| 0 <= i < |slugs| && 0 <= j < |slugs| && i != j && StartsWith(slugs[j] + "-", slugs[i] + "-");
      var k, name := LookupConfused(slugs, i, j);
    }
  }
}
