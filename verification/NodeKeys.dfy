/** The strings under which `play_in_action` keeps its nodes: different nodes have different ones. */
module NodeKeys {
  import opened ActionGraph
  import Strings

  /** `str` of a number. */
  function Digits(n: nat): (s: string)
    ensures s != [] && '0' <= s[0] <= '9' && forall c :: c in s ==> '0' <= c <= '9'
  {
    if n < 10 then [Strings.Digit(n)] else Digits(n / 10) + [Strings.Digit(n % 10)]
  }

  lemma {:induction false} DigitsDiffer(m: nat, n: nat)
    requires Digits(m) == Digits(n)
    ensures m == n
  {
    var s, t := Digits(m), Digits(n);
    assert s[|s| - 1] == Strings.Digit(m % 10) && t[|t| - 1] == Strings.Digit(n % 10);
    if m >= 10 && n >= 10 {
      assert s[..|s| - 1] == Digits(m / 10) && t[..|t| - 1] == Digits(n / 10);
      DigitsDiffer(m / 10, n / 10);
    }
  }

  /** What follows the task's name. */
  function Suffix(n: Node): (s: string)
    requires n != Done
    ensures s != [] && '$' !in s
  {
    match n
    case Start(_) => "start"
    case End(_) => "end"
    case Act(_, k) => Digits(k)
  }

  function Key(names: seq<Name>, n: Node): string
    requires n != Done && n.task < |names|
  {
    names[n.task] + "$" + Suffix(n)
  }

  /** Where the last dollar sign stands, names and suffixes part. */
  lemma LastDollar(a: string, s: string, b: string, t: string)
    requires '$' !in s && '$' !in t && a + "$" + s == b + "$" + t
    ensures a == b && s == t
  {
    var whole := a + "$" + s;
    assert whole[|a|] == '$' && whole[|b|] == '$';
    assert forall k :: |a| < k < |whole| ==> whole[k] == s[k - |a| - 1];
    assert forall k :: |b| < k < |whole| ==> whole[k] == t[k - |b| - 1];
    assert whole[..|a|] == a && (b + "$" + t)[..|b|] == b;
    assert whole[|a| + 1..] == s && (b + "$" + t)[|b| + 1..] == t;
  }

  lemma SuffixesDiffer(m: Node, n: Node)
    requires m != Done && n != Done && m.task == n.task && Suffix(m) == Suffix(n)
    ensures m == n
  {
    assert "start"[0] == 's' && "end"[0] == 'e';
    assert m.Act? <==> '0' <= Suffix(m)[0] <= '9';
    assert n.Act? <==> '0' <= Suffix(n)[0] <= '9';
    if m.Act? {
      DigitsDiffer(m.index, n.index);
    }
  }

  /** No two nodes are kept under one key, whatever the tasks are called. */
  lemma KeysDiffer(names: seq<Name>, m: Node, n: Node)
    requires Distinct(names) && m != Done && n != Done && m.task < |names| && n.task < |names|
    ensures Key(names, m) == Key(names, n) <==> m == n
  {
    if Key(names, m) == Key(names, n) {
      LastDollar(names[m.task], Suffix(m), names[n.task], Suffix(n));
      SuffixesDiffer(m, n);
    }
  }
}
