/**
 Certificate issuance: a certificate is looked up by (user, module) and created
 only when none exists, with the number `COZY-{course}-{module}-{user}-{seconds}`.
 */
module Certificates {
  import opened Common
  import opened Records

  type CertificateTable = map<(nat, nat), Certificate>

  /** `head` and `rest` joined by a dash. */
  function Dashed(head: string, rest: string): string {
    head + "-" + rest
  }

  /** The parts of a dashed join. */
  lemma DashedParts(head: string, rest: string)
    ensures var s := Dashed(head, rest);
            |s| == |head| + 1 + |rest| && s[..|head|] == head && s[|head|] == '-' && s[|head| + 1..] == rest
  {
  }

  /** The certificate number composed from the course, module and user ids and the issue time in seconds. */
  function CertificateNumber(course: nat, moduleId: nat, user: nat, seconds: nat): string {
    "COZY-" + Dashed(NatToString(course), Dashed(NatToString(moduleId), Dashed(NatToString(user), NatToString(seconds))))
  }

  /** A digit string followed by a dash is recovered from the joined text. */
  lemma SplitAtDash(a: string, r: string, b: string, t: string)
    requires AllDigits(a) && AllDigits(b)
    requires Dashed(a, r) == Dashed(b, t)
    ensures a == b && r == t
  {
    DashedParts(a, r);
    DashedParts(b, t);
  }

  /** The number determines the course, module, user and issue second it was made from. */
  lemma NumberDetermines(c1: nat, m1: nat, u1: nat, t1: nat, c2: nat, m2: nat, u2: nat, t2: nat)
    requires CertificateNumber(c1, m1, u1, t1) == CertificateNumber(c2, m2, u2, t2)
    ensures c1 == c2 && m1 == m2 && u1 == u2 && t1 == t2
  {
    var s1 := Dashed(NatToString(u1), NatToString(t1));
    var s2 := Dashed(NatToString(u2), NatToString(t2));
    var r1 := Dashed(NatToString(m1), s1);
    var r2 := Dashed(NatToString(m2), s2);
    assert CertificateNumber(c1, m1, u1, t1)[5..] == Dashed(NatToString(c1), r1);
    assert CertificateNumber(c2, m2, u2, t2)[5..] == Dashed(NatToString(c2), r2);
    SplitAtDash(NatToString(c1), r1, NatToString(c2), r2);
    SplitAtDash(NatToString(m1), s1, NatToString(m2), s2);
    SplitAtDash(NatToString(u1), NatToString(t1), NatToString(u2), NatToString(t2));
    NatToStringInjective(c1, c2);
    NatToStringInjective(m1, m2);
    NatToStringInjective(u1, u2);
    NatToStringInjective(t1, t2);
  }

  /**
   Every stored certificate sits under its own (user, module) key and carries the
   number composed from its own fields.
   */
  predicate WellFormed(certs: CertificateTable) {
    forall k :: k in certs ==>
      certs[k].user == k.0 && certs[k].moduleId == k.1 &&
      certs[k].number == CertificateNumber(certs[k].course, k.1, k.0, certs[k].issuedAt)
  }

  /** In a well-formed table no two certificates share a number. */
  lemma NumbersUnique(certs: CertificateTable, k1: (nat, nat), k2: (nat, nat))
    requires WellFormed(certs)
    requires k1 in certs && k2 in certs && k1 != k2
    ensures certs[k1].number != certs[k2].number
  {
    if certs[k1].number == certs[k2].number {
      NumberDetermines(certs[k1].course, k1.1, k1.0, certs[k1].issuedAt,
                       certs[k2].course, k2.1, k2.0, certs[k2].issuedAt);
    }
  }

  datatype Issued = Issued(certificates: CertificateTable, certificate: Certificate, created: bool)

  /**
   Returns the learner's existing certificate for the module unchanged, or
   creates one with the given score, stamped `now`.
   */
  function IssueIfNeeded(certs: CertificateTable, user: nat, m: ModuleInfo, score: nat, now: nat): (r: Issued)
    ensures (user, m.id) in r.certificates && r.certificate == r.certificates[(user, m.id)]
    ensures r.created <==> (user, m.id) !in certs
    ensures !r.created ==> r.certificates == certs && r.certificate == certs[(user, m.id)]
    ensures r.created ==> r.certificates.Keys == certs.Keys + {(user, m.id)}
    ensures r.created ==> forall k :: k in certs ==> r.certificates[k] == certs[k]
    ensures r.created ==> r.certificate == Certificate(user, m.courseId, m.id, score, now, CertificateNumber(m.courseId, m.id, user, now))
  {
    if (user, m.id) in certs then Issued(certs, certs[(user, m.id)], false)
    else
      var c := Certificate(user, m.courseId, m.id, score, now, CertificateNumber(m.courseId, m.id, user, now));
      Issued(certs[(user, m.id) := c], c, true)
  }

  /** Issuance keeps the table well formed, so numbers stay unique. */
  lemma IssueKeepsWellFormed(certs: CertificateTable, user: nat, m: ModuleInfo, score: nat, now: nat)
    requires WellFormed(certs)
    ensures WellFormed(IssueIfNeeded(certs, user, m, score, now).certificates)
  {
  }

  /** Issuing a second time, with any score and at any time, returns the same certificate and adds nothing. */
  lemma IssueTwiceSame(certs: CertificateTable, user: nat, m: ModuleInfo, s1: nat, s2: nat, t1: nat, t2: nat)
    ensures var first := IssueIfNeeded(certs, user, m, s1, t1);
            var second := IssueIfNeeded(first.certificates, user, m, s2, t2);
            !second.created && second.certificate == first.certificate &&
            second.certificates == first.certificates
  {
  }
}
