/**
 * The statement text the mappers assemble with `', '.join(...)` in `save`
 * and `update`, and what can be counted in it: placeholders and the commas
 * that separate list items.
 */
module Sql {

  /** Python's `sep.join(parts)`. */
  function Join(sep: string, parts: seq<string>): string {
    if |parts| == 0 then ""
    else if |parts| == 1 then parts[0]
    else parts[0] + sep + Join(sep, parts[1..])
  }

  /** `'?' for i in range(n)`: n placeholders. */
  function Marks(n: nat): (r: seq<string>)
    ensures |r| == n && forall i :: 0 <= i < n ==> r[i] == "?"
  {
    seq(n, _ => "?")
  }

  /** `'(%s)' % ', '.join(keys)`: the column list of an insert. */
  function ColumnList(keys: seq<string>): string {
    "(" + Join(", ", keys) + ")"
  }

  /** `'(%s)' % ', '.join('?' for i in range(n))`: the value list of an insert. */
  function RefList(n: nat): string {
    "(" + Join(", ", Marks(n)) + ")"
  }

  /** `'= ?, '.join(keys) + '= ?'`: the assignments of an update. */
  function SetClause(keys: seq<string>): string {
    Join("= ?, ", keys) + "= ?"
  }

  /** The number of times `c` occurs in `s`. */
  function Count(c: char, s: string): nat {
    if |s| == 0 then 0 else (if s[0] == c then 1 else 0) + Count(c, s[1..])
  }

  /** The total number of times `c` occurs in all the parts. */
  function CountAll(c: char, parts: seq<string>): nat {
    if |parts| == 0 then 0 else Count(c, parts[0]) + CountAll(c, parts[1..])
  }

  /** A statement's placeholders: its `?` characters. */
  function Placeholders(s: string): nat {
    Count('?', s)
  }

  lemma {:induction false} CountAppend(c: char, a: string, b: string)
    ensures Count(c, a + b) == Count(c, a) + Count(c, b)
  {
    if |a| > 0 {
      assert (a + b)[1..] == a[1..] + b;
      CountAppend(c, a[1..], b);
    } else {
      assert a + b == b;
    }
  }

  /**
   * Joining k parts adds k - 1 separators: every occurrence of `c` in the
   * result comes from a part or from a separator.
   */
  lemma {:induction false} CountJoin(c: char, sep: string, parts: seq<string>)
    requires |parts| > 0
    ensures Count(c, Join(sep, parts)) == CountAll(c, parts) + (|parts| - 1) * Count(c, sep)
  {
    if |parts| > 1 {
      CountJoin(c, sep, parts[1..]);
      CountAppend(c, parts[0], sep);
      CountAppend(c, parts[0] + sep, Join(sep, parts[1..]));
    }
  }

  lemma {:induction false} CountAllMarks(c: char, n: nat)
    ensures CountAll(c, Marks(n)) == if c == '?' then n else 0
  {
    if n > 0 {
      assert Marks(n)[1..] == Marks(n - 1);
      CountAllMarks(c, n - 1);
      assert Marks(n)[0] == ['?'];
      CountChar(c, '?');
    }
  }

  lemma {:induction false} CountAllNone(c: char, parts: seq<string>)
    requires forall i :: 0 <= i < |parts| ==> Count(c, parts[i]) == 0
    ensures CountAll(c, parts) == 0
  {
    if |parts| > 0 {
      CountAllNone(c, parts[1..]);
    }
  }

  /** The count of `c` in a one-character string, by cases on the character. */
  lemma CountChar(c: char, d: char)
    ensures Count(c, [d]) == if c == d then 1 else 0
  {
    assert [d][1..] == [];
  }

  /** A string without `c` has no occurrence of it. */
  lemma CountNone(c: char, s: string)
    requires c !in s
    ensures Count(c, s) == 0
    decreases |s|
  {
    if |s| > 0 {
      assert forall x :: x in s[1..] ==> x in s;
      CountNone(c, s[1..]);
    }
  }

  /** Items in a joined list, as the commas between them count them. */
  function Items(n: nat): nat {
    if n == 0 then 0 else n - 1
  }

  /** Parentheses add neither a placeholder nor a comma. */
  lemma Parenthesized(c: char, body: string)
    requires c == '?' || c == ','
    ensures Count(c, "(" + body + ")") == Count(c, body)
  {
    CountChar(c, '('); CountChar(c, ')');
    CountAppend(c, "(", body); CountAppend(c, "(" + body, ")");
  }

  /** The separator `", "` holds one comma and no placeholder. */
  lemma CommaSeparator()
    ensures Count(',', ", ") == 1 && Count('?', ", ") == 0
  {
    CountNone('?', ", ");
    assert ", "[1..] == " ";
    CountNone(',', " ");
  }

  /**
   * The value list of an insert has exactly n placeholders, one per item,
   * and n - 1 commas between them.
   */
  lemma RefListShape(n: nat)
    ensures Placeholders(RefList(n)) == n
    ensures Count(',', RefList(n)) == Items(n)
  {
    var body := Join(", ", Marks(n));
    Parenthesized('?', body);
    Parenthesized(',', body);
    if n > 0 {
      CommaSeparator();
      CountJoin('?', ", ", Marks(n));
      CountAllMarks('?', n);
      CountJoin(',', ", ", Marks(n));
      CountAllMarks(',', n);
    }
  }

  /**
   * For column names free of ',' and '?', the column list of an insert has
   * no placeholder and as many commas as the value list built for the same
   * number of attributes: both lists have one item per attribute.
   */
  lemma ColumnListMatchesRefList(keys: seq<string>)
    requires forall i :: 0 <= i < |keys| ==> Count(',', keys[i]) == 0 && Count('?', keys[i]) == 0
    ensures Placeholders(ColumnList(keys)) == 0
    ensures Count(',', ColumnList(keys)) == Count(',', RefList(|keys|)) == Items(|keys|)
  {
    RefListShape(|keys|);
    var body := Join(", ", keys);
    Parenthesized('?', body);
    Parenthesized(',', body);
    if |keys| > 0 {
      CommaSeparator();
      CountJoin('?', ", ", keys);
      CountAllNone('?', keys);
      CountJoin(',', ", ", keys);
      CountAllNone(',', keys);
    }
  }

  /**
   * For column names free of '?', the assignments of an update carry one
   * placeholder per column; with no column at all the text still ends in
   * one placeholder.
   */
  lemma SetClausePlaceholders(keys: seq<string>)
    requires forall i :: 0 <= i < |keys| ==> Count('?', keys[i]) == 0
    ensures Placeholders(SetClause(keys)) == if |keys| == 0 then 1 else |keys|
  {
    var body := Join("= ?, ", keys);
    CountAppend('?', body, "= ?");
    assert Count('?', "= ?") == 1 by {
      assert "= ?"[1..] == " ?" && " ?"[1..] == "?";
      CountChar('?', '?');
    }
    if |keys| > 0 {
      CountJoin('?', "= ?, ", keys);
      CountAllNone('?', keys);
      assert Count('?', "= ?, ") == 1 by {
        assert "= ?, " == "= ?" + ", ";
        CountAppend('?', "= ?", ", ");
        CountNone('?', ", ");
      }
    }
  }

  /** One `k= ?` assignment per column. */
  function Assignments(keys: seq<string>): (r: seq<string>)
    ensures |r| == |keys| && forall i :: 0 <= i < |keys| ==> r[i] == keys[i] + "= ?"
  {
    seq(|keys|, i requires 0 <= i < |keys| => keys[i] + "= ?")
  }

  /**
   * The update's assignment text is the comma-separated list of one
   * `k= ?` per column, in column order.
   */
  lemma {:induction false} SetClauseIsAssignments(keys: seq<string>)
    requires |keys| > 0
    ensures SetClause(keys) == Join(", ", Assignments(keys))
  {
    if |keys| > 1 {
      SetClauseIsAssignments(keys[1..]);
      assert Assignments(keys)[1..] == Assignments(keys[1..]);
      calc {
        SetClause(keys);
        keys[0] + "= ?, " + Join("= ?, ", keys[1..]) + "= ?";
        { assert keys[0] + "= ?, " == (keys[0] + "= ?") + ", "; }
        (keys[0] + "= ?") + ", " + SetClause(keys[1..]);
        Join(", ", Assignments(keys));
      }
    }
  }
}
