/**
  The inputs of the overlap assessment (internal/assess/types.go) and the keys
  it compares them by.
 */
module AssessTypes {
  import opened Cidr
  import opened Optional

  /** netip.ParsePrefix followed by the canonical-IPv4 test, which every caller applies. */
  type Parser = p: string -> Option<Prefix> | forall s :: p(s).Some? ==> p(s).value.Valid()
    witness s => None

  const TYPE_VPC := "vpc"
  const TYPE_SUBNET := "subnet"
  const SEP := "\U{1F}"

  /** One row of the organization inventory; detail stands for the fields carried as evidence only. */
  datatype Record = Record(
    account: string, region: string, kind: string, resource: string, cidr: string,
    association: Option<string>, parent: string, detail: string, sourceFile: string, sourceRow: int)
  {
    function VpcKey(): string {
      account + SEP + region + SEP + (if kind == TYPE_SUBNET then parent else resource)
    }

    function Identity(): string {
      "aws:" + account + ":" + region + ":" + resource + ":" + cidr +
      (if association.Some? && association.value != "" then ":" + association.value else "")
    }

    function DedupeKey(): string {
      account + SEP + region + SEP + resource + SEP + cidr + SEP + association.UnwrapOr("")
    }
  }

  /** One row of the --fixed table. */
  datatype FixedRange = FixedRange(cidr: string, description: string, owner: string, sourceFile: string, sourceRow: int) {
    function Identity(): string {
      "fixed:" + cidr
    }
  }

  // ----- texts joined by a separator -----

  predicate Lacks(s: string, c: char) {
    forall i :: 0 <= i < |s| ==> s[i] != c
  }

  /** Text up to the first separator, and the text from it on, can be told apart again. */
  lemma {:induction false} SplitUnique(c: char, p: string, u: string, q: string, v: string)
    requires Lacks(p, c) && Lacks(q, c) && p + u == q + v
    requires (u == [] || u[0] == c) && (v == [] || v[0] == c)
    ensures p == q && u == v
    decreases |p|
  {
    assert if p == [] then p + u == u else (p + u)[0] == p[0];
    assert if q == [] then q + v == v else (q + v)[0] == q[0];
    if p != [] && q != [] {
      assert p[1..] + u == (p + u)[1..] && q[1..] + v == (q + v)[1..];
      SplitUnique(c, p[1..], u, q[1..], v);
      assert p == [p[0]] + p[1..] && q == [q[0]] + q[1..];
    }
  }

  lemma TailsAgree(pre: string, u: string, v: string)
    requires pre + u == pre + v
    ensures u == v
  {
    assert (pre + u)[|pre|..] == u && (pre + v)[|pre|..] == v;
  }

  /** One field and what follows it. */
  lemma FieldAgrees(c: char, p: string, u: string, q: string, v: string)
    requires Lacks(p, c) && Lacks(q, c) && p + ([c] + u) == q + ([c] + v)
    ensures p == q && u == v
  {
    SplitUnique(c, p, [c] + u, q, [c] + v);
    TailsAgree([c], u, v);
  }

  datatype AccountRecord = AccountRecord(account: string, status: string)

  datatype FailureRow = FailureRow(account: string, region: string, stage: string, error: string)

  datatype Outcome = Succeeded | Failed | Partial | NotAttempted | Unknown(word: string)

  datatype RunAttempt = RunAttempt(account: string, region: string, outcome: Outcome, stage: string, rowCount: Option<nat>)

  datatype Input = Input(
    records: seq<Record>, accounts: seq<AccountRecord>, failures: seq<FailureRow>, run: Option<seq<RunAttempt>>)
}
