/** The strings under which blocks and configurations are remembered, and when they name one thing only. */
module Fqn {
  import opened Composition

  /** A configuration of a block, named by the block's absolute path. */
  datatype Id = Id(block: Path, key: Name)

  /** Names of subsystems and the block, separated by slashes. */
  function BlockFqn(p: Path): string {
    if p == [] then "" else if |p| == 1 then p[0] else p[0] + ['/'] + BlockFqn(p[1..])
  }

  function CfgFqn(id: Id): string {
    BlockFqn(id.block) + ['.'] + id.key
  }

  /** Some configurations of two blocks share their string exactly if one block's prefix begins with the other's. */
  lemma BlocksCollide(p: Path, q: Path)
    ensures (exists k, m :: CfgFqn(Id(p, k)) == CfgFqn(Id(q, m))) <==>
            BlockFqn(p) + ['.'] <= BlockFqn(q) + ['.'] || BlockFqn(q) + ['.'] <= BlockFqn(p) + ['.']
  {
    var x, y := BlockFqn(p) + ['.'], BlockFqn(q) + ['.'];
    if x <= y {
      assert CfgFqn(Id(p, y[|x|..])) == CfgFqn(Id(q, []));
    } else if y <= x {
      assert CfgFqn(Id(p, [])) == CfgFqn(Id(q, x[|y|..]));
    } else {
      forall k, m ensures CfgFqn(Id(p, k)) != CfgFqn(Id(q, m)) {
        OnePrefix(x, k, y, m);
      }
    }
  }

  /** Of two prefixes of one string one is a prefix of the other. */
  lemma OnePrefix(x: string, k: string, y: string, m: string)
    ensures x + k == y + m ==> x <= y || y <= x
  {
    if x + k == y + m {
      var s := x + k;
      assert x == s[..|x|] && y == s[..|y|];
      if |x| <= |y| {
        assert x == y[..|x|];
      } else {
        assert y == x[..|y|];
      }
    }
  }

  ghost predicate Free(s: string, c: char) {
    c !in s
  }

  /** Names that cannot be confused with separators. */
  ghost predicate PlainNames(p: Path) {
    p != [] && forall i :: 0 <= i < |p| ==> Free(p[i], '/') && Free(p[i], '.')
  }

  /** A string splits in one way only at the first occurrence of a character. */
  lemma SplitOnce(x: string, y: string, u: string, v: string, c: char)
    requires c !in x && c !in u && x + [c] + y == u + [c] + v
    ensures x == u && y == v
  {
    var s := x + [c] + y;
    assert s[|x|] == c && s[|u|] == (u + [c] + v)[|u|];
    assert forall i :: 0 <= i < |x| ==> s[i] == x[i];
    assert forall i :: 0 <= i < |u| ==> s[i] == (u + [c] + v)[i] == u[i];
    assert |x| == |u|;
    assert x == s[..|x|] == u && y == s[|x| + 1..] == v;
  }

  lemma {:induction false} FqnFree(p: Path)
    requires PlainNames(p)
    ensures Free(BlockFqn(p), '.')
    decreases |p|
  {
    if |p| > 1 {
      FqnFree(p[1..]);
    }
  }

  lemma SlashInFqn(p: Path)
    requires PlainNames(p)
    ensures |p| > 1 <==> '/' in BlockFqn(p)
  {
    if |p| > 1 {
      assert BlockFqn(p)[|p[0]|] == '/';
    }
  }

  lemma {:induction false} FqnInjective(p: Path, q: Path)
    requires PlainNames(p) && PlainNames(q) && BlockFqn(p) == BlockFqn(q)
    ensures p == q
    decreases |p|
  {
    SlashInFqn(p);
    SlashInFqn(q);
    if |p| > 1 {
      SplitOnce(p[0], BlockFqn(p[1..]), q[0], BlockFqn(q[1..]), '/');
      FqnInjective(p[1..], q[1..]);
      assert p == [p[0]] + p[1..] && q == [q[0]] + q[1..];
    }
  }

  /** Tables indexed by these strings distinguish all configurations of blocks with plain names. */
  lemma CfgFqnInjective(a: Id, b: Id)
    requires PlainNames(a.block) && PlainNames(b.block) && CfgFqn(a) == CfgFqn(b)
    ensures a == b
  {
    FqnFree(a.block);
    FqnFree(b.block);
    SplitOnce(BlockFqn(a.block), a.key, BlockFqn(b.block), b.key, '.');
    FqnInjective(a.block, b.block);
  }

  /** With a dot in a block name two different configurations can share their string. */
  lemma DottedNamesCollide()
    ensures var a, b := Id(["a"], "b.c"), Id(["a.b"], "c");
            a != b && CfgFqn(a) == CfgFqn(b)
  {
    var a, b := Id(["a"], "b.c"), Id(["a.b"], "c");
    assert CfgFqn(a) == "a.b.c" && CfgFqn(b) == "a.b.c";
    assert a.key != b.key by {
      assert |a.key| == 3;
    }
  }
}
