/** Reading the session identifier out of the parsed pairs of a `Cookie` header. */
module Cookie {
  import opened Wrappers
  import opened Opaque

  const SESSION_COOKIE_NAME: string := "__Host-rv_session"

  /** One pair of the header, as the external parser hands it over. */
  datatype Pair = Pair(name: string, value: string) | Unparsed

  datatype CookieRejection = Absent | Malformed | Duplicated | PrefixImpersonation

  function AsciiLower(c: char): char {
    if 'A' <= c <= 'Z' then (c as int + 32) as char else c
  }

  predicate EqIgnoreAsciiCase(a: string, b: string) {
    |a| == |b| && forall i :: 0 <= i < |a| ==> AsciiLower(a[i]) == AsciiLower(b[i])
  }

  /** The session cookie, in its one spelling. */
  predicate IsExact(p: Pair) {
    p.Pair? && p.name == SESSION_COOKIE_NAME
  }

  /** A name that is the session cookie's only when case is ignored. */
  predicate IsVariant(p: Pair) {
    p.Pair? && p.name != SESSION_COOKIE_NAME && EqIgnoreAsciiCase(p.name, SESSION_COOKIE_NAME)
  }

  /** The same character, or the same ASCII letter in the other case. */
  predicate SameLetter(c: char, d: char) {
    || c == d
    || ('A' <= c <= 'Z' && d as int - c as int == 32)
    || ('A' <= d <= 'Z' && c as int - d as int == 32)
  }

  /** The name is not the session cookie's, and differs from it in nothing but the case of letters. */
  predicate SpeltOtherwise(name: string) {
    && name != SESSION_COOKIE_NAME && |name| == |SESSION_COOKIE_NAME|
    && forall i :: 0 <= i < |name| ==> SameLetter(name[i], SESSION_COOKIE_NAME[i])
  }

  predicate Unrelated(pairs: seq<Pair>) {
    forall i :: 0 <= i < |pairs| && pairs[i].Pair? ==>
      pairs[i].name != SESSION_COOKIE_NAME && !SpeltOtherwise(pairs[i].name)
  }

  lemma VariantIsSpeltOtherwise(p: Pair)
    ensures IsVariant(p) <==> p.Pair? && SpeltOtherwise(p.name)
  {
    if p.Pair? && |p.name| == |SESSION_COOKIE_NAME| {
      forall i | 0 <= i < |p.name|
        ensures AsciiLower(p.name[i]) == AsciiLower(SESSION_COOKIE_NAME[i])
                <==> SameLetter(p.name[i], SESSION_COOKIE_NAME[i])
      {
        FoldsAlikeExactly(p.name[i], SESSION_COOKIE_NAME[i]);
      }
    }
  }

  lemma FoldsAlikeExactly(c: char, d: char)
    ensures AsciiLower(c) == AsciiLower(d) <==> SameLetter(c, d)
  {
  }

  lemma UnrelatedExactly(pairs: seq<Pair>)
    ensures Unrelated(pairs) <==> forall p :: p in pairs ==> !IsExact(p) && !IsVariant(p)
  {
    forall p: Pair
      ensures IsVariant(p) <==> p.Pair? && SpeltOtherwise(p.name)
    {
      VariantIsSpeltOtherwise(p);
    }
  }

  /** The values of the exact pairs, in order. */
  function Candidates(pairs: seq<Pair>): seq<string> {
    if pairs == [] then []
    else
      var before, last := Candidates(pairs[..|pairs| - 1]), pairs[|pairs| - 1];
      if IsExact(last) then before + [last.value] else before
  }

  predicate Impersonated(pairs: seq<Pair>) {
    exists p :: p in pairs && IsVariant(p)
  }

  /** What the header as a whole means: impersonation, then duplication, then absence, then the value. */
  function Meaning(pairs: seq<Pair>): Result<Opaque, CookieRejection> {
    var values := Candidates(pairs);
    if Impersonated(pairs) then Err(PrefixImpersonation)
    else if |values| > 1 then Err(Duplicated)
    else if |values| == 0 then Err(Absent)
    else
      var token := Parsed(Session, values[0]);
      if token.Some? then Ok(token.value) else Err(Malformed)
  }

  method Read(pairs: seq<Pair>) returns (r: Result<Opaque, CookieRejection>)
    ensures r == Meaning(pairs)
    ensures r == Err(PrefixImpersonation) <==> SomeImpersonates(pairs)
  {
    ImpersonatedExactly(pairs);
    var value: Option<string> := None;
    var seen := 0;
    var impersonated := false;
    for i := 0 to |pairs|
      invariant seen == |Candidates(pairs[..i])|
      invariant value == if seen == 0 then None else Some(Candidates(pairs[..i])[seen - 1])
      invariant impersonated <==> Impersonated(pairs[..i])
    {
      assert pairs[..i + 1][..i] == pairs[..i];
      assert pairs[..i + 1] == pairs[..i] + [pairs[i]];
      var candidate := pairs[i];
      if candidate.Pair? {
        if candidate.name == SESSION_COOKIE_NAME {
          seen := seen + 1;
          value := Some(candidate.value);
        } else if EqIgnoreAsciiCase(candidate.name, SESSION_COOKIE_NAME) {
          assert IsVariant(candidate);
          impersonated := true;
        }
      }
    }
    assert pairs[..|pairs|] == pairs;
    if impersonated {
      return Err(PrefixImpersonation);
    }
    if seen > 1 {
      return Err(Duplicated);
    }
    if value.None? {
      return Err(Absent);
    }
    var token := FromWire(Session, value.value);
    r := if token.Some? then Ok(token.value) else Err(Malformed);
  }

  lemma {:induction false} CandidatesCount(pairs: seq<Pair>, v: string)
    ensures multiset(Candidates(pairs))[v] == multiset(pairs)[Pair(SESSION_COOKIE_NAME, v)]
  {
    if pairs != [] {
      var prefix, last := pairs[..|pairs| - 1], pairs[|pairs| - 1];
      CandidatesCount(prefix, v);
      assert pairs == prefix + [last];
    }
  }

  /** The answer does not depend on the order the client sent the pairs in. */
  lemma ReadIsOrderIndependent(pairs: seq<Pair>, permuted: seq<Pair>)
    requires multiset(pairs) == multiset(permuted)
    ensures Meaning(pairs) == Meaning(permuted)
  {
    assert forall p :: p in pairs <==> p in multiset(pairs);
    assert forall p :: p in permuted <==> p in multiset(permuted);
    var v, w := Candidates(pairs), Candidates(permuted);
    forall value
      ensures multiset(v)[value] == multiset(w)[value]
    {
      CandidatesCount(pairs, value);
      CandidatesCount(permuted, value);
    }
    assert multiset(v) == multiset(w);
    assert |v| == |multiset(v)| == |multiset(w)| == |w|;
    if |v| == 1 {
      assert v[0] in multiset(v);
      assert v[0] in multiset(w);
    }
  }

  lemma {:induction false} CandidatesOfConcat(a: seq<Pair>, b: seq<Pair>)
    ensures Candidates(a + b) == Candidates(a) + Candidates(b)
  {
    if b == [] {
      assert a + b == a;
    } else {
      CandidatesOfConcat(a, b[..|b| - 1]);
      assert (a + b)[..|a + b| - 1] == a + b[..|b| - 1];
    }
  }

  lemma {:induction false} UnrelatedHasNoCandidates(pairs: seq<Pair>)
    requires forall p :: p in pairs ==> !IsExact(p)
    ensures Candidates(pairs) == []
  {
    if pairs != [] {
      UnrelatedHasNoCandidates(pairs[..|pairs| - 1]);
    }
  }

  /** The pair `issue` writes, put anywhere among unrelated pairs, reads back as the same token. */
  lemma IssuedCookieReadsBack(before: seq<Pair>, token: Opaque, after: seq<Pair>)
    requires Unrelated(before) && Unrelated(after) && token.kind == Session
    ensures Meaning(before + [Pair(SESSION_COOKIE_NAME, Wire(token))] + after) == Ok(token)
  {
    var own := [Pair(SESSION_COOKIE_NAME, Wire(token))];
    UnrelatedExactly(before);
    UnrelatedExactly(after);
    CandidatesOfConcat(before + own, after);
    CandidatesOfConcat(before, own);
    UnrelatedHasNoCandidates(before);
    UnrelatedHasNoCandidates(after);
    assert Candidates(own) == [Wire(token)] by { assert own[..0] == []; }
    WireRoundTrip(Session, Wire(token), token);
  }

  /** A session is read exactly when the header is one such pair among unrelated ones: no other header yields one. */
  lemma SessionNeedsExactlyOnePair(pairs: seq<Pair>, token: Opaque)
    ensures Meaning(pairs) == Ok(token) <==>
      token.kind == Session && exists i :: 0 <= i < |pairs| && IsSoleSession(pairs, i, token)
  {
    if Meaning(pairs) == Ok(token) {
      var i := SessionHasItsPair(pairs, token);
    }
    forall i | token.kind == Session && 0 <= i < |pairs| && IsSoleSession(pairs, i, token)
      ensures Meaning(pairs) == Ok(token)
    {
      SolePairIsRead(pairs, i, token);
    }
  }

  lemma SessionHasItsPair(pairs: seq<Pair>, token: Opaque) returns (i: nat)
    requires Meaning(pairs) == Ok(token)
    ensures token.kind == Session && i < |pairs| && IsSoleSession(pairs, i, token)
  {
    i := SoleCandidate(pairs);
    WireRoundTrip(Session, pairs[i].value, token);
  }

  lemma SolePairIsRead(pairs: seq<Pair>, i: nat, token: Opaque)
    requires token.kind == Session && i < |pairs| && IsSoleSession(pairs, i, token)
    ensures Meaning(pairs) == Ok(token)
  {
    assert pairs == pairs[..i] + [pairs[i]] + pairs[i + 1..];
    IssuedCookieReadsBack(pairs[..i], token, pairs[i + 1..]);
  }

  predicate IsSoleSession(pairs: seq<Pair>, i: nat, token: Opaque)
    requires i < |pairs|
  {
    && pairs[i] == Pair(SESSION_COOKIE_NAME, Wire(token))
    && Unrelated(pairs[..i])
    && Unrelated(pairs[i + 1..])
  }

  lemma {:induction false} SoleCandidate(pairs: seq<Pair>) returns (i: nat)
    requires |Candidates(pairs)| == 1 && !Impersonated(pairs)
    ensures i < |pairs| && IsExact(pairs[i]) && pairs[i].value == Candidates(pairs)[0]
    ensures Unrelated(pairs[..i]) && Unrelated(pairs[i + 1..])
  {
    var prefix, last := pairs[..|pairs| - 1], pairs[|pairs| - 1];
    assert pairs == prefix + [last];
    VariantIsSpeltOtherwise(last);
    if IsExact(last) {
      i := |pairs| - 1;
      NoCandidatesMeansNoExact(prefix);
      UnrelatedExactly(prefix);
    } else {
      i := SoleCandidate(prefix);
      assert pairs[i + 1..] == prefix[i + 1..] + [last];
      assert pairs[..i] == prefix[..i];
    }
  }

  lemma {:induction false} NoCandidatesMeansNoExact(pairs: seq<Pair>)
    requires Candidates(pairs) == []
    ensures forall p :: p in pairs ==> !IsExact(p)
  {
    if pairs != [] {
      NoCandidatesMeansNoExact(pairs[..|pairs| - 1]);
    }
  }

  // ---- Exactly which answer --------------------------------------------------------------------

  predicate IsSessionAt(pairs: seq<Pair>, i: nat) {
    i < |pairs| && pairs[i].Pair? && pairs[i].name == SESSION_COOKIE_NAME
  }

  predicate ImpersonatedAt(pairs: seq<Pair>, i: nat) {
    i < |pairs| && pairs[i].Pair? && SpeltOtherwise(pairs[i].name)
  }

  predicate IsWire(value: string) {
    |value| == 64 && forall i :: 0 <= i < 64 ==> '0' <= value[i] <= '9' || 'a' <= value[i] <= 'f'
  }

  /** The session's name occurs, and no more than once. */
  ghost predicate OccursOnceAt(pairs: seq<Pair>, i: nat) {
    IsSessionAt(pairs, i) && forall j: nat :: j != i ==> !IsSessionAt(pairs, j)
  }

  ghost predicate OccursTwice(pairs: seq<Pair>) {
    exists i: nat, j: nat :: i < j && IsSessionAt(pairs, i) && IsSessionAt(pairs, j)
  }

  ghost predicate Occurs(pairs: seq<Pair>) {
    exists i: nat :: IsSessionAt(pairs, i)
  }

  ghost predicate SomeImpersonates(pairs: seq<Pair>) {
    exists i: nat :: ImpersonatedAt(pairs, i)
  }

  lemma OneMorePair(prefix: seq<Pair>, last: Pair)
    ensures Occurs(prefix + [last]) <==> Occurs(prefix) || IsExact(last)
    ensures OccursTwice(prefix + [last]) <==> OccursTwice(prefix) || (Occurs(prefix) && IsExact(last))
  {
    var pairs := prefix + [last];
    assert forall i: nat :: i < |prefix| ==> (IsSessionAt(pairs, i) <==> IsSessionAt(prefix, i));
    assert IsSessionAt(pairs, |prefix|) <==> IsExact(last);
    assert forall i: nat :: IsSessionAt(pairs, i) ==> i <= |prefix|;
    if i: nat :| IsSessionAt(prefix, i) {
      assert IsSessionAt(pairs, i);
    }
    if i: nat, j: nat :| i < j && IsSessionAt(prefix, i) && IsSessionAt(prefix, j) {
      assert IsSessionAt(pairs, i) && IsSessionAt(pairs, j);
    }
  }

  lemma {:induction false} CandidatesAreTheOccurrences(pairs: seq<Pair>)
    ensures |Candidates(pairs)| >= 1 <==> Occurs(pairs)
    ensures |Candidates(pairs)| >= 2 <==> OccursTwice(pairs)
  {
    if pairs != [] {
      CandidatesAreTheOccurrences(pairs[..|pairs| - 1]);
      OneMorePair(pairs[..|pairs| - 1], pairs[|pairs| - 1]);
      assert pairs == pairs[..|pairs| - 1] + [pairs[|pairs| - 1]];
    }
  }

  lemma ImpersonatedExactly(pairs: seq<Pair>)
    ensures Impersonated(pairs) <==> SomeImpersonates(pairs)
  {
    forall p: Pair
      ensures IsVariant(p) <==> p.Pair? && SpeltOtherwise(p.name)
    {
      VariantIsSpeltOtherwise(p);
    }
    if p :| p in pairs && IsVariant(p) {
      var i: nat :| i < |pairs| && pairs[i] == p;
      assert ImpersonatedAt(pairs, i);
    }
    if i: nat :| ImpersonatedAt(pairs, i) {
      assert pairs[i] in pairs && IsVariant(pairs[i]);
    }
  }

  /**
   * Each refusal, exactly: a name that differs from the session's in case alone, before all else; the session's name
   * twice; not at all; or once, with a value that is not 64 lowercase hex characters.
   */
  lemma RefusalsAreExactly(pairs: seq<Pair>)
    ensures Meaning(pairs) == Err(PrefixImpersonation) <==> SomeImpersonates(pairs)
    ensures Meaning(pairs) == Err(Duplicated) <==> !SomeImpersonates(pairs) && OccursTwice(pairs)
    ensures Meaning(pairs) == Err(Absent) <==> !SomeImpersonates(pairs) && !Occurs(pairs)
    ensures Meaning(pairs) == Err(Malformed) <==>
      !SomeImpersonates(pairs) && exists i: nat :: OccursOnceAt(pairs, i) && !IsWire(pairs[i].value)
  {
    ImpersonatedExactly(pairs);
    CandidatesAreTheOccurrences(pairs);
    if !SomeImpersonates(pairs) && Occurs(pairs) && !OccursTwice(pairs) {
      var i := SoleCandidate(pairs);
      assert IsSessionAt(pairs, i);
      assert OccursOnceAt(pairs, i);
      assert forall j: nat :: OccursOnceAt(pairs, j) ==> j == i;
      assert IsWire(pairs[i].value) <==> Parsed(Session, pairs[i].value).Some?;
    }
  }
}
