/**
  Two hash-chained logs. The hash is a function on texts of which no more is assumed than
  that it tells different texts apart, is never empty and puts no NUL into its result.
 */
module Chains {
  type Hash = string -> string

  const NUL: char := '\U{0000}'

  ghost predicate GoodHash(h: Hash) {
    && (forall a, b :: h(a) == h(b) ==> a == b)
    && (forall a :: h(a) != "" && NUL !in h(a))
  }

  // ---- joining fields with NUL between them ----

  function Join(fields: seq<string>): string {
    if fields == [] then "" else if |fields| == 1 then fields[0] else fields[0] + [NUL] + Join(fields[1..])
  }

  predicate NulFree(fields: seq<string>) { forall f | f in fields :: NUL !in f }

  function FirstNul(s: string): nat {
    if s == [] || s[0] == NUL then 0 else 1 + FirstNul(s[1..])
  }

  lemma {:induction false} FirstNulAfter(a: string, x: string)
    requires NUL !in a
    ensures FirstNul(a + [NUL] + x) == |a|
  {
    if a == [] {
    } else {
      assert a[0] in a;
      assert (a + [NUL] + x)[1..] == a[1..] + [NUL] + x;
      FirstNulAfter(a[1..], x);
    }
  }

  /** A NUL-free text is cut off again at the first NUL after it. */
  lemma FirstFieldDetermined(a: string, x: string, b: string, y: string)
    requires NUL !in a && NUL !in b && a + [NUL] + x == b + [NUL] + y
    ensures a == b && x == y
  {
    FirstNulAfter(a, x);
    FirstNulAfter(b, y);
    var s := a + [NUL] + x;
    assert a == s[..|a|] && b == s[..|b|] && x == s[|a| + 1..] && y == s[|b| + 1..];
  }

  lemma {:induction false} SameFieldsIfNulFree(fs: seq<string>, gs: seq<string>)
    requires |fs| == |gs| && NulFree(fs) && NulFree(gs) && Join(fs) == Join(gs)
    ensures fs == gs
  {
    if |fs| == 1 {
      assert fs == [fs[0]] && gs == [gs[0]];
    } else if |fs| > 1 {
      assert fs[0] in fs && gs[0] in gs;
      FirstFieldDetermined(fs[0], Join(fs[1..]), gs[0], Join(gs[1..]));
      SameFieldsIfNulFree(fs[1..], gs[1..]);
      assert fs == [fs[0]] + fs[1..] && gs == [gs[0]] + gs[1..];
    }
  }

  // ---- counting NULs: the separators of a joined text leave none over for the fields ----

  function Nuls(s: string): nat {
    if s == [] then 0 else (if s[0] == NUL then 1 else 0) + Nuls(s[1..])
  }

  function NulsIn(fields: seq<string>): nat {
    if fields == [] then 0 else Nuls(fields[0]) + NulsIn(fields[1..])
  }

  lemma {:induction false} NulsOfConcat(a: string, b: string)
    ensures Nuls(a + b) == Nuls(a) + Nuls(b)
  {
    if a == [] {
      assert a + b == b;
    } else {
      assert (a + b)[1..] == a[1..] + b;
      NulsOfConcat(a[1..], b);
    }
  }

  lemma {:induction false} NoNuls(s: string)
    ensures Nuls(s) == 0 <==> NUL !in s
  {
    if s == [] {
    } else {
      NoNuls(s[1..]);
      assert s == [s[0]] + s[1..];
    }
  }

  lemma {:induction false} NoNulsIn(fields: seq<string>)
    ensures NulsIn(fields) == 0 <==> NulFree(fields)
  {
    if fields == [] {
    } else {
      NoNuls(fields[0]);
      NoNulsIn(fields[1..]);
      assert fields == [fields[0]] + fields[1..];
    }
  }

  lemma {:induction false} NulsOfJoin(fields: seq<string>)
    requires fields != []
    ensures Nuls(Join(fields)) == NulsIn(fields) + |fields| - 1
  {
    if |fields| > 1 {
      var rest := Join(fields[1..]);
      NulsOfJoin(fields[1..]);
      assert fields[0] + [NUL] + rest == fields[0] + ([NUL] + rest);
      NulsOfConcat(fields[0], [NUL] + rest);
      NulsOfConcat([NUL], rest);
    } else {
      assert NulsIn(fields[1..]) == 0;
    }
  }

  /** NUL-free fields share their joined text with no other list of as many fields. */
  lemma JoinDetermines(fs: seq<string>, gs: seq<string>)
    requires |fs| == |gs| > 0 && NulFree(fs) && Join(fs) == Join(gs)
    ensures fs == gs
  {
    NulsOfJoin(fs);
    NulsOfJoin(gs);
    NoNulsIn(fs);
    NoNulsIn(gs);
    SameFieldsIfNulFree(fs, gs);
  }

  // ---- and when a field does hold a NUL, there is another list ----

  /** The same text cut differently: what lies behind the NUL in field k goes to a neighbour among the first m. */
  function Shifted(fields: seq<string>, m: nat, k: nat): (out: seq<string>)
    requires k < m <= |fields| && m >= 2 && NUL in fields[k]
    ensures |out| == |fields| && out[m..] == fields[m..]
  {
    var cut := CutAt(fields[k]);
    if k + 1 < m
    then fields[k := cut.0][k + 1 := cut.1 + [NUL] + fields[k + 1]]
    else fields[k - 1 := fields[k - 1] + [NUL] + cut.0][k := cut.1]
  }

  function CutAt(s: string): (cut: (string, string))
    requires NUL in s
    ensures cut.0 + [NUL] + cut.1 == s
  {
    if s[0] == NUL then ([], s[1..])
    else
      assert s == [s[0]] + s[1..];
      var c := CutAt(s[1..]);
      ([s[0]] + c.0, c.1)
  }

  lemma {:induction false} JoinOfPair(pre: seq<string>, a: string, b: string, c: string, post: seq<string>)
    ensures Join(pre + [a + [NUL] + b, c] + post) == Join(pre + [a, b + [NUL] + c] + post)
  {
    var l, r := pre + [a + [NUL] + b, c] + post, pre + [a, b + [NUL] + c] + post;
    if pre != [] {
      JoinOfPair(pre[1..], a, b, c, post);
      assert l[1..] == pre[1..] + [a + [NUL] + b, c] + post;
      assert r[1..] == pre[1..] + [a, b + [NUL] + c] + post;
    } else {
      assert l[1..] == [c] + post && r[1..] == [b + [NUL] + c] + post;
      assert l[1..][1..] == post == r[1..][1..];
      if post == [] {
        assert Join(l) == a + [NUL] + b + [NUL] + c;
        assert Join(r) == a + [NUL] + (b + [NUL] + c);
      } else {
        assert Join(l) == a + [NUL] + b + [NUL] + (c + [NUL] + Join(post));
        assert Join(r) == a + [NUL] + (b + [NUL] + c + [NUL] + Join(post));
      }
    }
  }

  lemma ExchangeAt(fields: seq<string>, i: nat, a: string, b: string, c: string)
    requires i + 1 < |fields| && fields[i] == a + [NUL] + b && fields[i + 1] == c
    ensures Join(fields[i := a][i + 1 := b + [NUL] + c]) == Join(fields)
  {
    var pre, post := fields[..i], fields[i + 2..];
    JoinOfPair(pre, a, b, c, post);
    assert fields == pre + [a + [NUL] + b, c] + post;
    assert fields[i := a][i + 1 := b + [NUL] + c] == pre + [a, b + [NUL] + c] + post;
  }

  lemma ShiftForward(first: string, fields: seq<string>, k: nat, a: string, b: string)
    requires k + 1 < |fields| && fields[k] == a + [NUL] + b
    ensures var out := fields[k := a][k + 1 := b + [NUL] + fields[k + 1]];
      out != fields && Join([first] + out) == Join([first] + fields)
  {
    var all, c := [first] + fields, fields[k + 1];
    ExchangeAt(all, k + 1, a, b, c);
    var out := fields[k := a][k + 1 := b + [NUL] + c];
    assert [first] + out == all[k + 1 := a][k + 2 := b + [NUL] + c];
    assert |out[k]| < |fields[k]|;
  }

  lemma ShiftBack(first: string, fields: seq<string>, k: nat, b: string, c: string)
    requires 0 < k < |fields| && fields[k] == b + [NUL] + c
    ensures var out := fields[k - 1 := fields[k - 1] + [NUL] + b][k := c];
      out != fields && Join([first] + out) == Join([first] + fields)
  {
    var a := fields[k - 1];
    var out := fields[k - 1 := a + [NUL] + b][k := c];
    var all := [first] + out;
    ExchangeAt(all, k, a, b, c);
    assert all[k := a][k + 1 := b + [NUL] + c] == [first] + fields;
    assert |out[k]| < |fields[k]|;
  }

  lemma ShiftedJoinsAlike(first: string, fields: seq<string>, m: nat, k: nat)
    requires k < m <= |fields| && m >= 2 && NUL in fields[k]
    ensures Join([first] + Shifted(fields, m, k)) == Join([first] + fields)
    ensures Shifted(fields, m, k) != fields
  {
    var cut := CutAt(fields[k]);
    if k + 1 < m {
      ShiftForward(first, fields, k, cut.0, cut.1);
    } else {
      ShiftBack(first, fields, k, cut.0, cut.1);
    }
  }

  // ---- chains in general: each link hashes the previous hash and its own fields ----

  datatype Link = Link(fields: seq<string>, hash: string)

  function LinkHash(h: Hash, previous: string, fields: seq<string>): string { h(Join([previous] + fields)) }

  function LastHash(links: seq<Link>): string { if links == [] then "" else links[|links| - 1].hash }

  /** Every link's hash is the one its predecessor and its fields call for. */
  predicate Chained(h: Hash, links: seq<Link>) {
    forall i | 0 <= i < |links| :: links[i].hash == LinkHash(h, LastHash(links[..i]), links[i].fields)
  }

  predicate Arity(links: seq<Link>, n: nat) { forall l | l in links :: |l.fields| == n }

  predicate AllNulFree(links: seq<Link>) { forall l | l in links :: NulFree(l.fields) }

  lemma PreviousIsNulFree(h: Hash, links: seq<Link>)
    requires GoodHash(h) && Chained(h, links)
    ensures NUL !in LastHash(links)
    ensures links != [] ==> LastHash(links) != ""
  {
    if links != [] {
      var n := |links| - 1;
      assert links[n].hash == LinkHash(h, LastHash(links[..n]), links[n].fields);
    }
  }

  lemma ChainedPrefix(h: Hash, links: seq<Link>, n: nat)
    requires Chained(h, links) && n <= |links|
    ensures Chained(h, links[..n])
  {
    forall i | 0 <= i < n ensures links[..n][i].hash == LinkHash(h, LastHash(links[..n][..i]), links[..n][i].fields) {
      assert links[..n][..i] == links[..i];
    }
  }

  /** The text a link hashes has the previous hash as its first field. */
  lemma LinkDetermined(h: Hash, p: string, fs: seq<string>, q: string, gs: seq<string>)
    requires GoodHash(h) && NUL !in p && NulFree(fs) && |fs| == |gs|
    requires LinkHash(h, p, fs) == LinkHash(h, q, gs)
    ensures p == q && fs == gs
  {
    var l, r := [p] + fs, [q] + gs;
    JoinDetermines(l, r);
    assert l[0] == r[0] && l[1..] == fs && r[1..] == gs;
  }

  lemma ChainedInit(h: Hash, links: seq<Link>)
    requires GoodHash(h) && Chained(h, links) && links != []
    ensures var init, last := links[..|links| - 1], links[|links| - 1];
      && Chained(h, init) && NUL !in LastHash(init)
      && LastHash(links) == LinkHash(h, LastHash(init), last.fields) == last.hash
  {
    ChainedPrefix(h, links, |links| - 1);
    PreviousIsNulFree(h, links[..|links| - 1]);
  }

  lemma LastLinkDetermined(h: Hash, a: seq<Link>, b: seq<Link>, n: nat)
    requires GoodHash(h) && Chained(h, a) && Chained(h, b)
    requires Arity(a, n) && Arity(b, n) && AllNulFree(a)
    requires a != [] && b != [] && LastHash(a) == LastHash(b)
    ensures a[|a| - 1] == b[|b| - 1]
    ensures LastHash(a[..|a| - 1]) == LastHash(b[..|b| - 1])
  {
    ChainedInit(h, a);
    ChainedInit(h, b);
    assert a[|a| - 1] in a && b[|b| - 1] in b;
    LinkDetermined(h, LastHash(a[..|a| - 1]), a[|a| - 1].fields, LastHash(b[..|b| - 1]), b[|b| - 1].fields);
  }

  lemma InitChained(h: Hash, links: seq<Link>, n: nat)
    requires GoodHash(h) && Chained(h, links) && Arity(links, n) && links != []
    ensures Chained(h, links[..|links| - 1]) && Arity(links[..|links| - 1], n)
    ensures AllNulFree(links) ==> AllNulFree(links[..|links| - 1])
  {
    ChainedInit(h, links);
  }

  lemma InitsAgree(h: Hash, a: seq<Link>, b: seq<Link>, n: nat)
    requires GoodHash(h) && Chained(h, a) && Chained(h, b)
    requires Arity(a, n) && Arity(b, n) && AllNulFree(a)
    requires a != [] && b != [] && LastHash(a) == LastHash(b)
    ensures var ia, ib := a[..|a| - 1], b[..|b| - 1];
      && Chained(h, ia) && Chained(h, ib) && Arity(ia, n) && Arity(ib, n) && AllNulFree(ia)
      && LastHash(ia) == LastHash(ib)
    ensures a[|a| - 1] == b[|b| - 1]
  {
    LastLinkDetermined(h, a, b, n);
    InitChained(h, a, n);
    InitChained(h, b, n);
  }

  lemma EmptyByHash(h: Hash, a: seq<Link>, b: seq<Link>)
    requires GoodHash(h) && Chained(h, a) && Chained(h, b) && LastHash(a) == LastHash(b)
    ensures a == [] <==> b == []
  {
    PreviousIsNulFree(h, a);
    PreviousIsNulFree(h, b);
  }

  lemma SameByInitAndLast(a: seq<Link>, b: seq<Link>)
    requires a != [] && b != [] && a[..|a| - 1] == b[..|b| - 1] && a[|a| - 1] == b[|b| - 1]
    ensures a == b
  {
    assert a == a[..|a| - 1] + [a[|a| - 1]];
    assert b == b[..|b| - 1] + [b[|b| - 1]];
  }

  /** The last hash of a NUL-free chain is the last hash of no other chain with as many fields a link. */
  lemma {:induction false} LastHashDetermines(h: Hash, a: seq<Link>, b: seq<Link>, n: nat)
    requires GoodHash(h) && Chained(h, a) && Chained(h, b)
    requires Arity(a, n) && Arity(b, n) && AllNulFree(a)
    requires LastHash(a) == LastHash(b)
    ensures a == b
    decreases |a|
  {
    EmptyByHash(h, a, b);
    if a == [] {
    } else {
      InitsAgree(h, a, b, n);
      LastHashDetermines(h, a[..|a| - 1], b[..|b| - 1], n);
      SameByInitAndLast(a, b);
    }
  }
}
