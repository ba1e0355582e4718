/** Naming and formatting: the single-letter variable names, the
    `name=value` listing of a candidate and the reusable script printed with
    a solution. How a number is rendered as text is the stream library's
    business and is passed in as `show`. */
module Naming {
  import opened Candidates

  const Alphabet: string := "abcdefghijklmnopqrstuvwxyz"

  /** The name of variable i: the letter 'a' + i. */
  function VarName(i: nat): (name: string)
    requires i < 26
    ensures name == [Alphabet[i]]
  {
    [('a' as int + i) as char]
  }

  /** Distinct positions get distinct names, so the n variables are bound to
      n different letters. */
  lemma NamesDistinct(i: nat, j: nat)
    requires i < 26 && j < 26 && i != j
    ensures VarName(i) != VarName(j)
  {
    assert VarName(i)[0] as int - 'a' as int == i;
    assert VarName(j)[0] as int - 'a' as int == j;
  }

  /** The text for variable i holding x. */
  function Item(i: nat, x: real, show: real -> string): string
    requires i < 26
  {
    VarName(i) + "=" + show(x)
  }

  /** One `name=value` item per variable, in order. */
  function Items(c: Candidate, show: real -> string): (items: seq<string>)
    requires |c| <= 26
    ensures |items| == |c|
    ensures forall i :: 0 <= i < |c| ==> items[i] == Item(i, c[i], show)
  {
    seq(|c|, i requires 0 <= i < |c| => Item(i, c[i], show))
  }

  /** The items with sep between each two of them and nowhere else. */
  function Join(items: seq<string>, sep: string): string
    decreases |items|
  {
    if |items| == 0 then ""
    else if |items| == 1 then items[0]
    else items[0] + sep + Join(items[1..], sep)
  }

  /** Adding one item at the end adds one separator before it. */
  lemma {:induction false} JoinSnoc(items: seq<string>, x: string, sep: string)
    requires items != []
    ensures Join(items + [x], sep) == Join(items, sep) + sep + x
  {
    if |items| > 1 {
      assert (items + [x])[1..] == items[1..] + [x];
      JoinSnoc(items[1..], x, sep);
    }
  }

  /** The listing of the first i + 1 items extends that of the first i. */
  lemma JoinPrefix(items: seq<string>, i: nat, sep: string)
    requires i < |items|
    ensures Join(items[..i + 1], sep) == if i == 0 then items[0] else Join(items[..i], sep) + sep + items[i]
  {
    if i == 0 {
      assert items[..1] == [items[0]];
    } else {
      assert items[..i + 1] == items[..i] + [items[i]];
      JoinSnoc(items[..i], items[i], sep);
    }
  }

  /** The text cut at every occurrence of c: the independent reading of a
      c-separated listing. */
  function Split(s: string, c: char): (parts: seq<string>)
    ensures |parts| >= 1
    decreases |s|
  {
    if s == [] then [""]
    else if s[0] == c then [""] + Split(s[1..], c)
    else
      var rest := Split(s[1..], c);
      [[s[0]] + rest[0]] + rest[1..]
  }

  lemma {:induction false} SplitPlain(a: string, c: char)
    requires c !in a
    ensures Split(a, c) == [a]
  {
    if a != [] {
      SplitPlain(a[1..], c);
      assert [a[0]] + a[1..] == a;
    }
  }

  lemma {:induction false} SplitAfterPlain(a: string, c: char, b: string)
    requires c !in a
    ensures Split(a + [c] + b, c) == [a] + Split(b, c)
  {
    if a == [] {
      assert a + [c] + b == [c] + b;
      assert ([c] + b)[1..] == b;
    } else {
      assert (a + [c] + b)[1..] == a[1..] + [c] + b;
      SplitAfterPlain(a[1..], c, b);
      assert [a[0]] + a[1..] == a;
    }
  }

  /** Reading a one-character-separated listing back gives the items, as
      long as no item contains the separator. */
  lemma {:induction false} SplitJoin(items: seq<string>, c: char)
    requires items != []
    requires forall i :: 0 <= i < |items| ==> c !in items[i]
    ensures Split(Join(items, [c]), c) == items
  {
    if |items| == 1 {
      SplitPlain(items[0], c);
    } else {
      var others := items[1..];
      var tail := Join(others, [c]);
      assert Join(items, [c]) == items[0] + [c] + tail;
      assert forall i :: 0 <= i < |others| ==> c !in others[i] by {
        forall i | 0 <= i < |others| ensures c !in others[i] {
          assert others[i] == items[i + 1];
        }
      }
      SplitJoin(others, c);
      SplitAfterPlain(items[0], c, tail);
      assert items == [items[0]] + others;
    }
  }

  /** The listing of a candidate, built item by item with the separator
      after every item but the last. */
  method Format(c: Candidate, show: real -> string, sep: string) returns (s: string)
    requires |c| <= 26
    ensures s == Join(Items(c, show), sep)
  {
    ghost var items := Items(c, show);
    s := "";
    for i := 0 to |c|
      invariant i == 0 ==> s == ""
      invariant 0 < i < |c| ==> s == Join(items[..i], sep) + sep
      invariant 0 < i == |c| ==> s == Join(items[..i], sep)
    {
      var item := VarName(i) + "=" + show(c[i]);
      assert item == items[i];
      JoinPrefix(items, i, sep);
      s := s + item;
      if i != |c| - 1 {
        s := s + sep;
      }
    }
    assert |c| > 0 ==> items[..|c|] == items;
  }

  /** Variable names, the '=' sign and the rendered values hold no newline,
      so no item does. */
  lemma ItemsSingleLine(c: Candidate, show: real -> string)
    requires |c| <= 26
    requires forall i :: 0 <= i < |c| ==> '\n' !in show(c[i])
    ensures forall i :: 0 <= i < |c| ==> '\n' !in Items(c, show)[i]
  {
    forall i | 0 <= i < |c|
      ensures '\n' !in Items(c, show)[i]
    {
      var name := VarName(i);
      assert Items(c, show)[i] == name + "=" + show(c[i]);
    }
  }

  /** The solution script: one assignment per line, then the equation. */
  function Script(c: Candidate, show: real -> string, expr1: string, expr2: string): (script: string)
    requires |c| <= 26
    ensures |Join(Items(c, show), "\n")| < |script| && script[|script| - 1] == '\n'
    ensures script[..|Join(Items(c, show), "\n")|] == Join(Items(c, show), "\n")
  {
    Join(Items(c, show), "\n") + "\n" + expr1 + " == " + expr2 + "\n"
  }

  /** The script's lines are exactly the assignments of every variable, in
      order, followed by the equation (and the empty tail after the final
      newline), as long as no rendered value or expression spans lines. */
  lemma ScriptLines(c: Candidate, show: real -> string, expr1: string, expr2: string)
    requires 1 <= |c| <= 26
    requires forall i :: 0 <= i < |c| ==> '\n' !in show(c[i])
    requires '\n' !in expr1 && '\n' !in expr2
    ensures Split(Script(c, show, expr1, expr2), '\n') == Items(c, show) + [expr1 + " == " + expr2, ""]
  {
    var items := Items(c, show);
    var equation := expr1 + " == " + expr2;
    ItemsSingleLine(c, show);
    assert '\n' !in equation by {
      assert forall k :: 0 <= k < |equation| ==> equation[k] in expr1 || equation[k] in " == " || equation[k] in expr2;
    }
    var lines := items + [equation, ""];
    assert forall i :: 0 <= i < |lines| ==> '\n' !in lines[i] by {
      forall i | 0 <= i < |lines| ensures '\n' !in lines[i] {
        if i < |items| {
          assert lines[i] == items[i];
        }
      }
    }
    JoinSnoc(items, equation, "\n");
    JoinSnoc(items + [equation], "", "\n");
    assert items + [equation] + [""] == lines;
    assert Script(c, show, expr1, expr2) == Join(lines, "\n");
    SplitJoin(lines, '\n');
  }
}
