/** The home page of src/app/page.tsx: which navigation nodes become page
    cards, when a section header is shown, and the child-count label of a card. */
module HomePage {
  import opened Common
  import opened NavNodes

  /** `nodes.filter((child) => child.filePath)` */
  function WithFile(nodes: seq<NavNode>): (r: seq<NavNode>)
    ensures |r| <= |nodes|
    ensures forall n :: n in r <==> n in nodes && HasFile(n)
  {
    if nodes == [] then []
    else (if HasFile(nodes[0]) then [nodes[0]] else []) + WithFile(nodes[1..])
  }

  lemma {:induction false} WithFileAppend(a: seq<NavNode>, b: seq<NavNode>)
    ensures WithFile(a + b) == WithFile(a) + WithFile(b)
  {
    if a == [] {
      assert a + b == b;
    } else {
      assert (a + b)[0] == a[0];
      assert (a + b)[1..] == a[1..] + b;
      WithFileAppend(a[1..], b);
    }
  }

  /** `topLevelPages`: a top-level node with a file stands for itself, any
      other top-level node for its direct children that have a file. */
  function TopLevelPages(tree: seq<NavNode>): seq<NavNode>
  {
    if tree == [] then []
    else
      var node := tree[0];
      (if HasFile(node) then [node] else WithFile(node.children)) + TopLevelPages(tree[1..])
  }

  lemma {:induction false} TopLevelPagesAppend(a: seq<NavNode>, b: seq<NavNode>)
    ensures TopLevelPages(a + b) == TopLevelPages(a) + TopLevelPages(b)
  {
    if a == [] {
      assert a + b == b;
    } else {
      assert (a + b)[0] == a[0];
      assert (a + b)[1..] == a[1..] + b;
      TopLevelPagesAppend(a[1..], b);
    }
  }

  /** Whether `page` is one of the pages the top-level node `node` stands for:
      itself when it has a file, otherwise a direct child that has one. */
  predicate Contributes(node: NavNode, page: NavNode) {
    if HasFile(node) then page == node else page in node.children && HasFile(page)
  }

  /** The selection, node by node: every page has a file, and a page is either
      a top-level node with a file or a direct child with a file of a
      top-level node without one. Grandchildren never appear. */
  lemma {:induction false} TopLevelPagesMembers(tree: seq<NavNode>)
    ensures forall p :: p in TopLevelPages(tree) ==> HasFile(p)
    ensures forall p :: p in TopLevelPages(tree) <==>
              exists i :: 0 <= i < |tree| && Contributes(tree[i], p)
  {
    if tree != [] {
      TopLevelPagesMembers(tree[1..]);
      var node := tree[0];
      var own := if HasFile(node) then [node] else WithFile(node.children);
      assert TopLevelPages(tree) == own + TopLevelPages(tree[1..]);
      assert forall p :: p in own <==> Contributes(node, p);
      forall p
        ensures p in TopLevelPages(tree) <==> exists i :: 0 <= i < |tree| && Contributes(tree[i], p)
      {
        if p in TopLevelPages(tree[1..]) {
          var j :| 0 <= j < |tree[1..]| && Contributes(tree[1..][j], p);
          assert tree[1..][j] == tree[j + 1];
        }
        if exists i :: 0 <= i < |tree| && Contributes(tree[i], p) {
          var i :| 0 <= i < |tree| && Contributes(tree[i], p);
          if i > 0 {
            assert tree[1..][i - 1] == tree[i];
          }
        }
      }
    }
  }

  /** A top-level node with a file contributes only itself, whatever its
      children; one without a file contributes its children with a file, in
      order. */
  lemma TopLevelPagesOfNode(node: NavNode)
    ensures HasFile(node) ==> TopLevelPages([node]) == [node]
    ensures !HasFile(node) ==> TopLevelPages([node]) == WithFile(node.children)
  {
    assert [node][1..] == [];
  }

  // ---------------------------------------------------------------------------
  // What is rendered

  /** A `PageCard`: its link, its title, its icon and its child-count label. */
  datatype Card = Card(href: string, title: string, csvIcon: bool, countLabel: Option<string>)

  /** One section of the grid: an optional header and the cards below it. */
  datatype Section = Section(header: Option<string>, cards: seq<Card>)

  /** The decimal digits of `n`, as a template literal prints a number. */
  function Decimal(n: nat): (r: string)
    ensures |r| >= 1
    ensures forall k :: 0 <= k < |r| ==> '0' <= r[k] <= '9'
    ensures r[0] == '0' ==> n == 0
  {
    if n < 10 then [(n as int + '0' as int) as char]
    else Decimal(n / 10) + [(n % 10 + '0' as int) as char]
  }

  /** The number a string of decimal digits denotes. */
  function DigitsValue(s: string): int
  {
    if s == [] then 0
    else DigitsValue(s[..|s| - 1]) * 10 + (s[|s| - 1] as int - '0' as int)
  }

  /** A numeral as a number prints: decimal digits, no leading zero. */
  predicate IsNumeral(s: string) {
    && |s| >= 1
    && (forall k :: 0 <= k < |s| ==> '0' <= s[k] <= '9')
    && (s[0] == '0' ==> |s| == 1)
  }

  /** Digits with a non-zero leading digit denote a positive number. */
  lemma {:induction false} LeadingDigitPositive(s: string)
    requires |s| >= 1 && forall k :: 0 <= k < |s| ==> '0' <= s[k] <= '9'
    requires s[0] != '0'
    ensures DigitsValue(s) > 0
  {
    if |s| > 1 {
      LeadingDigitPositive(s[..|s| - 1]);
    } else {
      assert s[..0] == [];
    }
  }

  /** A numeral is the printed form of the number it denotes, so two
      numerals denoting the same number are the same string. */
  lemma {:induction false} NumeralIsDecimal(s: string)
    requires IsNumeral(s)
    ensures DigitsValue(s) >= 0 && Decimal(DigitsValue(s)) == s
  {
    if |s| == 1 {
      SingleDigit(s);
    } else {
      var init, c := s[..|s| - 1], s[|s| - 1];
      assert s == init + [c];
      assert IsNumeral(init) && init[0] != '0' by {
        assert init[0] == s[0] != '0';
      }
      NumeralIsDecimal(init);
      LeadingDigitPositive(init);
      NumeralStep(init, c);
    }
  }

  /** A single digit denotes itself and prints as itself. */
  lemma SingleDigit(s: string)
    requires |s| == 1 && '0' <= s[0] <= '9'
    ensures DigitsValue(s) == s[0] as int - '0' as int
    ensures Decimal(DigitsValue(s)) == s
  {
    assert s[..0] == [];
    var d := s[0] as int - '0' as int;
    assert (d + '0' as int) as char == s[0];
    assert s == [s[0]];
  }

  /** Appending a digit to the printed form of a positive number prints ten
      times that number plus the digit. */
  lemma NumeralStep(init: string, c: char)
    requires DigitsValue(init) > 0 && Decimal(DigitsValue(init)) == init
    requires '0' <= c <= '9'
    ensures DigitsValue(init + [c]) >= 0 && Decimal(DigitsValue(init + [c])) == init + [c]
  {
    var s := init + [c];
    assert s[..|s| - 1] == init;
    var q, d := DigitsValue(init), c as int - '0' as int;
    var n := q * 10 + d;
    assert DigitsValue(s) == n;
    assert n / 10 == q && n % 10 == d;
    assert (d + '0' as int) as char == c;
  }

  /** Reading the printed digits back gives the number. */
  lemma {:induction false} DecimalRoundTrip(n: nat)
    ensures DigitsValue(Decimal(n)) == n
  {
    var r := Decimal(n);
    if n < 10 {
      assert r[..0] == [];
    } else {
      var q, d := n / 10, n % 10;
      DecimalRoundTrip(q);
      assert r == Decimal(q) + [(d + '0' as int) as char];
      assert r[..|r| - 1] == Decimal(q);
      assert r[|r| - 1] as int - '0' as int == d;
      assert q * 10 + d == n;
    }
  }

  /** The child-count label of a card with `count` children: none for no
      child, "1 page" for one, "<count> pages" otherwise. */
  function CountLabel(count: nat): (r: Option<string>)
    ensures r.None? <==> count == 0
    ensures count == 1 ==> r == Some("1 page")
    ensures count > 1 ==> exists d :: r == Some(d + " pages") && IsNumeral(d) && DigitsValue(d) == count
  {
    if count == 0 then None
    else
      var digits := Decimal(count);
      DecimalRoundTrip(count);
      assert count == 1 ==> digits == "1";
      assert digits + " " + "pages" == digits + " pages";
      assert "1" + " " + "page" == "1 page";
      Some(digits + " " + (if count == 1 then "page" else "pages"))
  }

  function CardOf(node: NavNode): (c: Card)
    ensures c.href == "/page/" + node.slug
    ensures c.title == node.title && c.csvIcon == node.isCsv
    ensures c.countLabel == CountLabel(|node.children|)
  {
    Card("/page/" + node.slug, node.title, node.isCsv, CountLabel(|node.children|))
  }

  /** The header: the section's title when it has no file and some children. */
  function Header(section: NavNode): (r: Option<string>)
    ensures r.Some? <==> !HasFile(section) && HasChildren(section)
    ensures r.Some? ==> r.value == section.title
  {
    if !HasFile(section) && |section.children| > 0 then Some(section.title) else None
  }

  function Cards(nodes: seq<NavNode>): (r: seq<Card>)
    ensures |r| == |nodes|
    ensures forall k :: 0 <= k < |nodes| ==> r[k] == CardOf(nodes[k])
  {
    seq(|nodes|, k requires 0 <= k < |nodes| => CardOf(nodes[k]))
  }

  /** A top-level node rendered as a section: its own card when it has a
      file, otherwise a card per child with a file. */
  function SectionOf(section: NavNode): Section {
    Section(Header(section),
            if HasFile(section) then [CardOf(section)] else Cards(WithFile(section.children)))
  }

  /** The sections of the page, one per top-level node, in order. */
  function Render(tree: seq<NavNode>): (r: seq<Section>)
    ensures |r| == |tree|
    ensures forall k :: 0 <= k < |tree| ==> r[k] == SectionOf(tree[k])
  {
    if tree == [] then [] else [SectionOf(tree[0])] + Render(tree[1..])
  }

  /** The cards of all sections, one section after the other. */
  function AllCards(sections: seq<Section>): seq<Card> {
    if sections == [] then [] else sections[0].cards + AllCards(sections[1..])
  }

  lemma CardsAppend(a: seq<NavNode>, b: seq<NavNode>)
    ensures Cards(a + b) == Cards(a) + Cards(b)
  {
    var l, r := Cards(a + b), Cards(a) + Cards(b);
    assert |l| == |r|;
    forall k | 0 <= k < |l|
      ensures l[k] == r[k]
    {
      if k < |a| {
        assert (a + b)[k] == a[k];
      } else {
        assert (a + b)[k] == b[k - |a|];
      }
    }
  }

  /** The cards the page renders are exactly the cards of `topLevelPages`, in
      order. */
  lemma {:induction false} RenderedCardsAreTopLevelPages(tree: seq<NavNode>)
    ensures AllCards(Render(tree)) == Cards(TopLevelPages(tree))
  {
    if tree != [] {
      RenderedCardsAreTopLevelPages(tree[1..]);
      var node := tree[0];
      var own := if HasFile(node) then [node] else WithFile(node.children);
      var sections := Render(tree);
      assert sections[0].cards == Cards(own);
      assert sections[1..] == Render(tree[1..]);
      CardsAppend(own, TopLevelPages(tree[1..]));
    }
  }
}
