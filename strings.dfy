/** The string operations of JavaScript that the registry and the error messages rely on. */
module Strings {

  /** `p` occurs in `s` starting at index `i`. */
  predicate OccursAt(s: string, p: string, i: int)
  {
    0 <= i && i + |p| <= |s| && s[i..i + |p|] == p
  }

  /** `p` occurs somewhere in `s`. */
  ghost predicate Contains(s: string, p: string)
  {
    exists i {:trigger OccursAt(s, p, i)} :: OccursAt(s, p, i)
  }

  /** `s.indexOf(p, i)`: the first index at or after `i` where `p` occurs, or -1. */
  function IndexFrom(s: string, p: string, i: nat): (r: int)
    requires i <= |s|
    ensures r == -1 || (i <= r && OccursAt(s, p, r))
    ensures r == -1 ==> forall j :: i <= j ==> !OccursAt(s, p, j)
    ensures r != -1 ==> forall j :: i <= j < r ==> !OccursAt(s, p, j)
    decreases |s| - i
  {
    if i + |p| > |s| then -1
    else if s[i..i + |p|] == p then i
    else IndexFrom(s, p, i + 1)
  }

  /** `s.indexOf(p)`: the first index where `p` occurs in `s`, or -1 when it does not occur. */
  function IndexOf(s: string, p: string): (r: int)
    ensures r == -1 <==> !Contains(s, p)
    ensures r != -1 ==> OccursAt(s, p, r) && forall j :: 0 <= j < r ==> !OccursAt(s, p, j)
  {
    IndexFrom(s, p, 0)
  }

  /** `p` occurs in `a + p + b`, at index `|a|`. */
  lemma ContainsJoin(a: string, p: string, b: string)
    ensures OccursAt(a + p + b, p, |a|) && Contains(a + p + b, p)
  {
    var s := a + p + b;
    assert s[|a|..|a| + |p|] == p;
    assert OccursAt(s, p, |a|);
  }

  /** An occurrence in `a` is still one in `a + b`. */
  lemma ContainsExtend(a: string, b: string, p: string)
    ensures Contains(a, p) ==> Contains(a + b, p)
  {
    if Contains(a, p) {
      var i :| OccursAt(a, p, i);
      assert (a + b)[i..i + |p|] == a[i..i + |p|];
      assert OccursAt(a + b, p, i);
    }
  }

  /** Where each piece of `a + b + c + d` lies. */
  lemma JoinFour(a: string, b: string, c: string, d: string)
    ensures var s := a + b + c + d;
            && |s| == |a| + |b| + |c| + |d|
            && OccursAt(s, a, 0) && OccursAt(s, b + c, |a|) && OccursAt(s, d, |s| - |d|)
  {
    var s := a + b + c + d;
    assert s == a + (b + c) + d;
    ContainsJoin([], a, b + c + d);
    assert [] + a + (b + c + d) == s;
    ContainsJoin(a, b + c, d);
    ContainsJoin(a + b + c, d, []);
    assert a + b + c + d + [] == s;
  }

  /** `s.split(sep)[0]` for a non-empty separator: the text before the first occurrence of `sep`, or all of `s`. */
  function SplitFirst(s: string, sep: string): (r: string)
    requires sep != ""
    ensures |r| <= |s| && r == s[..|r|]
    ensures !Contains(s, sep) ==> r == s
    ensures Contains(s, sep) ==> OccursAt(s, sep, |r|)
    ensures forall j :: 0 <= j < |r| ==> !OccursAt(s, sep, j)
    ensures !Contains(r, sep)
  {
    var i := IndexOf(s, sep);
    if i == -1 then s
    else
      assert forall j :: OccursAt(s[..i], sep, j) ==> OccursAt(s, sep, j) by {
        forall j | OccursAt(s[..i], sep, j) ensures OccursAt(s, sep, j) {
          assert s[..i][j..j + |sep|] == s[j..j + |sep|];
        }
      }
      s[..i]
  }
  /** A template literal: its pieces joined in order. */
  function Concat(parts: seq<string>): string
  {
    if parts == [] then "" else parts[0] + Concat(parts[1..])
  }

  lemma {:induction false} ConcatAppend(a: seq<string>, b: seq<string>)
    ensures Concat(a + b) == Concat(a) + Concat(b)
  {
    if a != [] {
      assert (a + b)[1..] == a[1..] + b;
      ConcatAppend(a[1..], b);
    } else {
      assert a + b == b;
    }
  }

  /** Every run of consecutive pieces occurs in the joined text, where the pieces before it end. */
  lemma ConcatContains(parts: seq<string>, i: nat, j: nat)
    requires i <= j <= |parts|
    ensures OccursAt(Concat(parts), Concat(parts[i..j]), |Concat(parts[..i])|)
    ensures Contains(Concat(parts), Concat(parts[i..j]))
  {
    assert parts == parts[..i] + parts[i..j] + parts[j..];
    ConcatAppend(parts[..i] + parts[i..j], parts[j..]);
    ConcatAppend(parts[..i], parts[i..j]);
    ContainsJoin(Concat(parts[..i]), Concat(parts[i..j]), Concat(parts[j..]));
  }

  /** A single piece joins to itself. */
  lemma ConcatOne(p: string)
    ensures Concat([p]) == p
  {
    assert [p][1..] == [];
  }
}
