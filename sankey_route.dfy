/**
 * `GET /sankey/api` (app/sankey/api/route.ts): the money-flow graph. Transactions are summed
 * per category and direction (income when the amount is not negative), then every income
 * group flows into the centre node "Total Income", the centre flows out to every expense
 * group, and any income left over flows to "Excess".
 */
module SankeyRoute {
  import opened Basics
  import opened Grouping
  import opened Store

  /** A row of the aggregate query: `name`, `type = 'income'`, `sum(abs(amount))`, in cents. */
  datatype AggRow = AggRow(name: string, income: bool, value: int)

  datatype Link = Link(source: string, target: string, value: int)

  const Center := "Total Income"
  const Suffix := " (Income)"

  /** `left join categories c on t.category_id = c.id`: the name of the row's category, if any. */
  function CategoryName(categories: seq<Category>, id: Option<int>): Option<string> {
    if id.None? then None
    else if categories == [] then None
    else if categories[0].id == id.value then Some(categories[0].name)
    else CategoryName(categories[1..], id)
  }

  /** The group of a transaction, `(c.name, type)`, and the value it adds, `abs(t.amount)`. */
  function Keyed(rows: seq<Transaction>, categories: seq<Category>): (r: seq<((Option<string>, bool), int)>)
    ensures |r| == |rows|
    ensures forall i :: 0 <= i < |rows| ==>
      r[i] == ((CategoryName(categories, rows[i].categoryId), rows[i].amount >= 0),
               if rows[i].amount >= 0 then rows[i].amount else -rows[i].amount)
  {
    seq(|rows|, i requires 0 <= i < |rows| =>
      ((CategoryName(categories, rows[i].categoryId), rows[i].amount >= 0),
       if rows[i].amount >= 0 then rows[i].amount else -rows[i].amount))
  }

  function AggRowOf(g: ((Option<string>, bool), int)): AggRow {
    AggRow(g.0.0.GetOr("Uncategorized"), g.0.1, g.1)
  }

  /**
   * The aggregate query: `group by c.name, type`. Rows without a category form the group
   * named "Uncategorized".
   */
  function Aggregate(rows: seq<Transaction>, categories: seq<Category>): (r: seq<AggRow>)
    ensures |r| == |GroupSum(Keyed(rows, categories))|
    ensures forall i :: 0 <= i < |r| ==> r[i] == AggRowOf(GroupSum(Keyed(rows, categories))[i])
  {
    var gs := GroupSum(Keyed(rows, categories));
    seq(|gs|, i requires 0 <= i < |gs| => AggRowOf(gs[i]))
  }

  /**
   * Each aggregate row is one (category, direction) group: its value is the sum of the
   * absolute amounts of the transactions in the group, and no group appears twice.
   */
  lemma AggregateSums(rows: seq<Transaction>, categories: seq<Category>, i: nat)
    requires i < |Aggregate(rows, categories)|
    ensures var items := Keyed(rows, categories);
            var g := GroupSum(items)[i];
            var r := Aggregate(rows, categories)[i];
            && r.name == g.0.0.GetOr("Uncategorized")
            && r.income == g.0.1
            && r.value == SumFor(items, g.0)
  {
    GroupSumAt(Keyed(rows, categories), i);
  }

  /** Every (category, direction) of some transaction has its aggregate row. */
  lemma AggregateCovers(rows: seq<Transaction>, categories: seq<Category>, k: nat)
    requires k < |rows|
    ensures var key := (CategoryName(categories, rows[k].categoryId), rows[k].amount >= 0);
            exists i :: 0 <= i < |GroupSum(Keyed(rows, categories))| && GroupSum(Keyed(rows, categories))[i].0 == key
  {
    var items := Keyed(rows, categories);
    assert items[k].0 in KeysOf(items);
    assert items[k].0 in KeysOf(GroupSum(items));
  }

  /** The income rows, in order. */
  function Incomes(data: seq<AggRow>): seq<AggRow> {
    if data == [] then []
    else Incomes(data[..|data| - 1]) + (if data[|data| - 1].income then [data[|data| - 1]] else [])
  }

  /** The expense rows, in order. */
  function Expenses(data: seq<AggRow>): seq<AggRow> {
    if data == [] then []
    else Expenses(data[..|data| - 1]) + (if data[|data| - 1].income then [] else [data[|data| - 1]])
  }

  function Total(rows: seq<AggRow>): int {
    if rows == [] then 0 else Total(rows[..|rows| - 1]) + rows[|rows| - 1].value
  }

  /** Every row is income or expense, and exactly one: the counts and the totals add up. */
  lemma {:induction false} SplitRows(data: seq<AggRow>)
    ensures |Incomes(data)| + |Expenses(data)| == |data|
    ensures Total(Incomes(data)) + Total(Expenses(data)) == Total(data)
  {
    if data != [] {
      var front, last := data[..|data| - 1], data[|data| - 1];
      SplitRows(front);
      if last.income {
        TotalSnoc(Incomes(front), last);
        assert Expenses(data) == Expenses(front);
      } else {
        TotalSnoc(Expenses(front), last);
        assert Incomes(data) == Incomes(front);
      }
    }
  }

  /** The income rows are the rows of `data` marked income, and the expense rows the others. */
  lemma {:induction false} SplitRowsKinds(data: seq<AggRow>)
    ensures forall x :: x in Incomes(data) <==> x in data && x.income
    ensures forall x :: x in Expenses(data) <==> x in data && !x.income
  {
    if data != [] {
      var front, last := data[..|data| - 1], data[|data| - 1];
      SplitRowsKinds(front);
      assert data == front + [last];
    }
  }

  lemma TotalSnoc(rows: seq<AggRow>, x: AggRow)
    ensures Total(rows + [x]) == Total(rows) + x.value
  {
    assert (rows + [x])[..|rows|] == rows;
  }

  predicate HasExpense(expenses: seq<AggRow>, name: string) {
    exists k :: 0 <= k < |expenses| && expenses[k].name == name
  }

  /** The income node: the name, with " (Income)" when an expense row has the same name. */
  function IncomeNode(name: string, expenses: seq<AggRow>): string {
    if HasExpense(expenses, name) then name + Suffix else name
  }

  function IncomeLinks(income: seq<AggRow>, expenses: seq<AggRow>): (r: seq<Link>)
    ensures |r| == |income|
  {
    if income == [] then []
    else
      var last := income[|income| - 1];
      IncomeLinks(income[..|income| - 1], expenses) + [Link(IncomeNode(last.name, expenses), Center, last.value)]
  }

  function ExpenseLinks(expenses: seq<AggRow>): (r: seq<Link>)
    ensures |r| == |expenses|
  {
    if expenses == [] then []
    else
      var last := expenses[|expenses| - 1];
      ExpenseLinks(expenses[..|expenses| - 1]) + [Link(Center, last.name, last.value)]
  }

  function ExcessLinks(totalIncome: int, totalExpenses: int): seq<Link> {
    if totalIncome - totalExpenses > 0 then [Link(Center, "Excess", totalIncome - totalExpenses)] else []
  }

  /** The links of the graph: the income links, then the expense links, then the excess link. */
  function Links(data: seq<AggRow>): seq<Link> {
    var income, expenses := Incomes(data), Expenses(data);
    IncomeLinks(income, expenses) + ExpenseLinks(expenses) + ExcessLinks(Total(income), Total(expenses))
  }

  lemma {:induction false} IncomeLinksAt(income: seq<AggRow>, expenses: seq<AggRow>, k: nat)
    requires k < |income|
    ensures IncomeLinks(income, expenses)[k] == Link(IncomeNode(income[k].name, expenses), Center, income[k].value)
  {
    var front := income[..|income| - 1];
    if k < |front| {
      IncomeLinksAt(front, expenses, k);
    }
  }

  lemma {:induction false} ExpenseLinksAt(expenses: seq<AggRow>, k: nat)
    requires k < |expenses|
    ensures ExpenseLinks(expenses)[k] == Link(Center, expenses[k].name, expenses[k].value)
  {
    var front := expenses[..|expenses| - 1];
    if k < |front| {
      ExpenseLinksAt(front, k);
    }
  }

  /**
   * One link per income row and per expense row, plus one more exactly when income exceeds
   * expenses; that last link carries the excess to "Excess".
   */
  lemma LinkCount(data: seq<AggRow>)
    ensures var excess := Total(Incomes(data)) - Total(Expenses(data));
            && |Links(data)| == |Incomes(data)| + |Expenses(data)| + (if excess > 0 then 1 else 0)
            && |Links(data)| == |data| + (if excess > 0 then 1 else 0)
            && (excess > 0 ==> Links(data)[|Links(data)| - 1] == Link(Center, "Excess", excess))
  {
    SplitRows(data);
  }

  /**
   * The k-th income row flows into the centre from its node, which carries the suffix
   * exactly when an expense row has the same name.
   */
  lemma IncomeLink(data: seq<AggRow>, k: nat)
    requires k < |Incomes(data)|
    ensures var i, l := Incomes(data)[k], Links(data)[k];
            && l.target == Center && l.value == i.value
            && (HasExpense(Expenses(data), i.name) ==> l.source == i.name + Suffix)
            && (!HasExpense(Expenses(data), i.name) ==> l.source == i.name)
  {
    IncomeLinksAt(Incomes(data), Expenses(data), k);
  }

  /** The k-th expense row receives a link from the centre under its own name. */
  lemma ExpenseLink(data: seq<AggRow>, k: nat)
    requires k < |Expenses(data)|
    ensures Links(data)[|Incomes(data)| + k] == Link(Center, Expenses(data)[k].name, Expenses(data)[k].value)
  {
    ExpenseLinksAt(Expenses(data), k);
  }

  function ValueSum(links: seq<Link>): int {
    if links == [] then 0 else ValueSum(links[..|links| - 1]) + links[|links| - 1].value
  }

  lemma {:induction false} ExpenseLinksValue(expenses: seq<AggRow>)
    ensures ValueSum(ExpenseLinks(expenses)) == Total(expenses)
  {
    if expenses != [] {
      var front := expenses[..|expenses| - 1];
      ExpenseLinksValue(front);
      assert ExpenseLinks(expenses)[..|expenses| - 1] == ExpenseLinks(front);
    }
  }

  lemma {:induction false} ValueSumAppend(a: seq<Link>, b: seq<Link>)
    ensures ValueSum(a + b) == ValueSum(a) + ValueSum(b)
  {
    if b == [] {
      assert a + b == a;
    } else {
      var front := b[..|b| - 1];
      ValueSumAppend(a, front);
      assert (a + b)[..|a + b| - 1] == a + front;
      assert (a + b)[|a + b| - 1] == b[|b| - 1];
    }
  }

  /** What leaves the centre is the larger of total income and total expenses. */
  lemma OutflowOfCenter(data: seq<AggRow>)
    ensures var ti, te := Total(Incomes(data)), Total(Expenses(data));
            ValueSum(ExpenseLinks(Expenses(data)) + ExcessLinks(ti, te)) == Max(ti, te)
  {
    var ti, te := Total(Incomes(data)), Total(Expenses(data));
    ValueSumAppend(ExpenseLinks(Expenses(data)), ExcessLinks(ti, te));
    ExpenseLinksValue(Expenses(data));
    assert ValueSum(ExcessLinks(ti, te)) == if ti - te > 0 then ti - te else 0 by {
      if ti - te > 0 {
        assert ExcessLinks(ti, te)[..0] == [];
      }
    }
  }

  predicate NoDuplicates(xs: seq<string>) {
    forall i, j :: 0 <= i < j < |xs| ==> xs[i] != xs[j]
  }

  /** `nodes.add(name)`: insertion order, no duplicates. */
  function Added(nodes: seq<string>, name: string): (r: seq<string>)
    ensures forall x :: x in r <==> x in nodes || x == name
    ensures NoDuplicates(nodes) ==> NoDuplicates(r)
    ensures nodes != [] ==> r != [] && r[0] == nodes[0]
  {
    if name in nodes then nodes else nodes + [name]
  }

  predicate IsEndpoint(links: seq<Link>, x: string) {
    exists k :: 0 <= k < |links| && (links[k].source == x || links[k].target == x)
  }

  /** The node set: no duplicates, the centre first, and exactly the centre and the link endpoints. */
  ghost predicate NodesOf(nodes: seq<string>, links: seq<Link>) {
    && NoDuplicates(nodes) && nodes != [] && nodes[0] == Center
    && forall x :: x in nodes <==> x == Center || IsEndpoint(links, x)
  }

  lemma NodesStep(nodes: seq<string>, links: seq<Link>, name: string, l: Link)
    requires NodesOf(nodes, links)
    requires (l.source == name && l.target == Center) || (l.source == Center && l.target == name)
    ensures NodesOf(Added(nodes, name), links + [l])
  {
    var r, ls := Added(nodes, name), links + [l];
    forall x ensures x in r <==> x == Center || IsEndpoint(ls, x) {
      if IsEndpoint(links, x) {
        var k :| 0 <= k < |links| && (links[k].source == x || links[k].target == x);
        assert ls[k] == links[k];
      }
      if IsEndpoint(ls, x) {
        var k :| 0 <= k < |ls| && (ls[k].source == x || ls[k].target == x);
        if k < |links| {
          assert ls[k] == links[k];
        }
      }
      assert ls[|links|] == l;
    }
  }

  /** One more row of a prefix goes to exactly one of the two lists. */
  lemma SplitStep(data: seq<AggRow>, i: nat)
    requires i < |data|
    ensures data[i].income ==> Incomes(data[..i + 1]) == Incomes(data[..i]) + [data[i]]
    ensures data[i].income ==> Expenses(data[..i + 1]) == Expenses(data[..i])
    ensures !data[i].income ==> Incomes(data[..i + 1]) == Incomes(data[..i])
    ensures !data[i].income ==> Expenses(data[..i + 1]) == Expenses(data[..i]) + [data[i]]
  {
    var p := data[..i + 1];
    assert p[..|p| - 1] == data[..i];
    assert p[|p| - 1] == data[i];
    if data[i].income {
      assert Expenses(p) == Expenses(data[..i]) + [];
    } else {
      assert Incomes(p) == Incomes(data[..i]) + [];
    }
  }

  /** The state of the first loop after the first `i` rows. */
  ghost predicate SplitUpTo(data: seq<AggRow>, i: nat, income: seq<AggRow>, expenses: seq<AggRow>, totalIncome: int, totalExpenses: int)
    requires i <= |data|
  {
    && income == Incomes(data[..i]) && expenses == Expenses(data[..i])
    && totalIncome == Total(income) && totalExpenses == Total(expenses)
  }

  /** One turn of the first loop keeps its state. */
  lemma SplitUpToStep(data: seq<AggRow>, i: nat, income: seq<AggRow>, expenses: seq<AggRow>, totalIncome: int, totalExpenses: int)
    requires i < |data| && SplitUpTo(data, i, income, expenses, totalIncome, totalExpenses)
    ensures data[i].income ==> SplitUpTo(data, i + 1, income + [data[i]], expenses, totalIncome + data[i].value, totalExpenses)
    ensures !data[i].income ==> SplitUpTo(data, i + 1, income, expenses + [data[i]], totalIncome, totalExpenses + data[i].value)
  {
    SplitStep(data, i);
    TotalSnoc(income, data[i]);
    TotalSnoc(expenses, data[i]);
  }

  /** The first loop: split the rows into income and expenses, with their running totals. */
  method Split(data: seq<AggRow>) returns (income: seq<AggRow>, expenses: seq<AggRow>, totalIncome: int, totalExpenses: int)
    ensures income == Incomes(data) && expenses == Expenses(data)
    ensures totalIncome == Total(income) && totalExpenses == Total(expenses)
  {
    income, expenses := [], [];
    totalIncome, totalExpenses := 0, 0;
    assert data[..0] == [];
    for i := 0 to |data|
      invariant SplitUpTo(data, i, income, expenses, totalIncome, totalExpenses)
    {
      SplitUpToStep(data, i, income, expenses, totalIncome, totalExpenses);
      var row := data[i];
      if row.income {
        income := income + [row];
        totalIncome := totalIncome + row.value;
      } else {
        expenses := expenses + [row];
        totalExpenses := totalExpenses + row.value;
      }
    }
    assert data[..|data|] == data;
  }

  /** The income loop: a node and a link into the centre for every income row. */
  method AddIncome(nodes0: seq<string>, links0: seq<Link>, income: seq<AggRow>, expenses: seq<AggRow>)
    returns (nodes: seq<string>, links: seq<Link>)
    requires NodesOf(nodes0, links0)
    ensures links == links0 + IncomeLinks(income, expenses)
    ensures NodesOf(nodes, links)
  {
    nodes, links := nodes0, links0;
    for j := 0 to |income|
      invariant links == links0 + IncomeLinks(income[..j], expenses)
      invariant NodesOf(nodes, links)
    {
      assert income[..j + 1][..j] == income[..j];
      var nodeName := income[j].name;
      if exists k :: 0 <= k < |expenses| && expenses[k].name == income[j].name {
        nodeName := income[j].name + Suffix;
      }
      var l := Link(nodeName, Center, income[j].value);
      NodesStep(nodes, links, nodeName, l);
      nodes := Added(nodes, nodeName);
      links := links + [l];
    }
    assert income[..|income|] == income;
  }

  /** The expense loop: a node and a link out of the centre for every expense row. */
  method AddExpenses(nodes0: seq<string>, links0: seq<Link>, expenses: seq<AggRow>)
    returns (nodes: seq<string>, links: seq<Link>)
    requires NodesOf(nodes0, links0)
    ensures links == links0 + ExpenseLinks(expenses)
    ensures NodesOf(nodes, links)
  {
    nodes, links := nodes0, links0;
    for j := 0 to |expenses|
      invariant links == links0 + ExpenseLinks(expenses[..j])
      invariant NodesOf(nodes, links)
    {
      assert expenses[..j + 1][..j] == expenses[..j];
      var l := Link(Center, expenses[j].name, expenses[j].value);
      NodesStep(nodes, links, expenses[j].name, l);
      nodes := Added(nodes, expenses[j].name);
      links := links + [l];
    }
    assert expenses[..|expenses|] == expenses;
  }

  lemma NodesStart()
    ensures NodesOf([Center], [])
  {
  }

  /**
   * The graph: the income links, the expense links and the excess link, in that order;
   * the nodes are the centre and the link endpoints, each once, the centre first.
   */
  method Build(data: seq<AggRow>) returns (nodes: seq<string>, links: seq<Link>)
    ensures links == Links(data)
    ensures NodesOf(nodes, links)
  {
    var income, expenses, totalIncome, totalExpenses := Split(data);
    ghost var il, el := IncomeLinks(income, expenses), ExpenseLinks(expenses);
    NodesStart();
    nodes, links := AddIncome([Center], [], income, expenses);
    assert links == il;
    nodes, links := AddExpenses(nodes, links, expenses);
    assert links == il + el;
    var excess := totalIncome - totalExpenses;
    if excess > 0 {
      var l := Link(Center, "Excess", excess);
      NodesStep(nodes, links, "Excess", l);
      nodes := Added(nodes, "Excess");
      links := links + [l];
    } else {
      assert links == il + el + ExcessLinks(totalIncome, totalExpenses);
    }
  }

  /** The handler: the graph of the aggregate of the stored transactions. */
  method Get(rows: seq<Transaction>, categories: seq<Category>) returns (nodes: seq<string>, links: seq<Link>)
    ensures links == Links(Aggregate(rows, categories))
    ensures NodesOf(nodes, links)
  {
    nodes, links := Build(Aggregate(rows, categories));
  }
}
