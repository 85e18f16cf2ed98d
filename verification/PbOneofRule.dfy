/** The interleaving test of tools/protogen/gen_rust.py. */
module PbOneofRule {
  import opened Prelude
  import opened PbSchema
  import opened PbRustEncode

  /** Numbers of the fields that satisfy `p`, in order. */
  ghost function Numbers(fields: seq<Field>, p: Field -> bool): seq<nat> {
    if fields == [] then [] else (if p(fields[0]) then [fields[0].number] else []) + Numbers(fields[1..], p)
  }

  ghost function IsMember(g: nat): Field -> bool {
    (f: Field) => f.kind == Oneof(g)
  }

  ghost function InSpan(lo: nat, hi: nat): Field -> bool {
    (f: Field) => lo <= f.number <= hi
  }

  ghost function Members(fields: seq<Field>, g: nat): seq<nat> {
    Numbers(fields, IsMember(g))
  }

  ghost function Span(fields: seq<Field>, lo: nat, hi: nat): seq<nat> {
    Numbers(fields, InSpan(lo, hi))
  }

  /** What `check` tests for each oneof: the numbers between its first and its last
      member are its members. */
  ghost predicate CheckAccepts(fields: seq<Field>) {
    forall g: nat | Members(fields, g) != [] ::
      var members := Members(fields, g);
      Span(fields, members[0], members[|members| - 1]) == members
  }

  lemma {:induction false} NumbersOfSame(fields: seq<Field>, p: Field -> bool, q: Field -> bool)
    requires forall i | 0 <= i < |fields| :: p(fields[i]) == q(fields[i])
    ensures Numbers(fields, p) == Numbers(fields, q)
  {
    if fields != [] { NumbersOfSame(fields[1..], p, q); }
  }

  lemma {:induction false} NumberIn(fields: seq<Field>, p: Field -> bool, i: nat)
    requires i < |fields| && p(fields[i])
    ensures fields[i].number in Numbers(fields, p)
  {
    if i > 0 { NumberIn(fields[1..], p, i - 1); }
  }

  lemma {:induction false} NumberFrom(fields: seq<Field>, p: Field -> bool, n: nat) returns (i: nat)
    requires n in Numbers(fields, p)
    ensures i < |fields| && p(fields[i]) && fields[i].number == n
  {
    if p(fields[0]) && fields[0].number == n {
      i := 0;
    } else {
      i := NumberFrom(fields[1..], p, n);
      i := i + 1;
    }
  }

  lemma {:induction false} NumbersAscend(fields: seq<Field>, p: Field -> bool)
    requires Sorted(fields)
    ensures Ascending(Numbers(fields, p))
  {
    if fields != [] {
      NumbersAscend(fields[1..], p);
      var rest := Numbers(fields[1..], p);
      forall k | 0 <= k < |rest| ensures fields[0].number < rest[k] {
        var i := NumberFrom(fields[1..], p, rest[k]);
      }
    }
  }

  /** A field lies between the ends of a oneof's members if and only if its number
      does. */
  lemma MemberEnds(fields: seq<Field>, g: nat, i: nat)
    requires Sorted(fields) && i < |fields| && fields[i].kind == Oneof(g)
    ensures var ms := Members(fields, g);
            ms != [] && ms[0] <= fields[i].number <= ms[|ms| - 1]
  {
    NumberIn(fields, IsMember(g), i);
    NumbersAscend(fields, IsMember(g));
  }

  /** The generator's test is exactly contiguity. */
  lemma CheckIsContiguity(s: Schema, d: Desc)
    requires ValidDesc(s, d)
    ensures CheckAccepts(d.fields) <==> Contiguous(d.fields)
  {
    if CheckAccepts(d.fields) { AcceptedIsContiguous(d.fields); }
    if Contiguous(d.fields) { ContiguousIsAccepted(d.fields); }
  }

  ghost predicate Sorted(fields: seq<Field>) {
    forall i, j | 0 <= i < j < |fields| :: fields[i].number < fields[j].number
  }

  lemma AcceptedIsContiguous(fields: seq<Field>)
    requires Sorted(fields) && CheckAccepts(fields)
    ensures Contiguous(fields)
  {
    forall i, j, k | 0 <= i < j < k < |fields| && fields[i].kind.Oneof? && fields[i].kind == fields[k].kind
      ensures fields[j].kind == fields[i].kind
    {
      var g := fields[i].kind.group;
      MemberEnds(fields, g, i);
      MemberEnds(fields, g, k);
      var ms := Members(fields, g);
      NumberIn(fields, InSpan(ms[0], ms[|ms| - 1]), j);
      var x := NumberFrom(fields, IsMember(g), fields[j].number);
      assert x == j;
    }
  }

  lemma ContiguousIsAccepted(fields: seq<Field>)
    requires Sorted(fields) && Contiguous(fields)
    ensures CheckAccepts(fields)
  {
    forall g: nat | Members(fields, g) != []
      ensures var ms := Members(fields, g); Span(fields, ms[0], ms[|ms| - 1]) == ms
    {
      var ms := Members(fields, g);
      var a := NumberFrom(fields, IsMember(g), ms[0]);
      var b := NumberFrom(fields, IsMember(g), ms[|ms| - 1]);
      forall i | 0 <= i < |fields| ensures InSpan(ms[0], ms[|ms| - 1])(fields[i]) == IsMember(g)(fields[i]) {
        if fields[i].kind == Oneof(g) { MemberEnds(fields, g, i); }
      }
      NumbersOfSame(fields, InSpan(ms[0], ms[|ms| - 1]), IsMember(g));
    }
  }
}
