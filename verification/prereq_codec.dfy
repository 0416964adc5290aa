/**
 * The prerequisite-list codec of `datastructures/graph_branch.py`: a list of
 * course names is stored in one TEXT column as `','.join(names)` and read back
 * with `cell.split(',') if cell else []`.
 */
module PrereqCodec {
  import opened Wrappers

  const Separator: char := ','

  /** A course name that the comma encoding can carry without loss. */
  predicate Plain(name: string) {
    Separator !in name
  }

  predicate AllPlain(names: seq<string>) {
    forall i :: 0 <= i < |names| ==> Plain(names[i])
  }

  /** How many separators a text holds. */
  function Commas(s: string): nat {
    if s == [] then 0 else (if s[0] == Separator then 1 else 0) + Commas(s[1..])
  }

  lemma {:induction false} CommasAppend(a: string, b: string)
    ensures Commas(a + b) == Commas(a) + Commas(b)
    decreases |a|
  {
    if a != [] {
      assert (a + b)[0] == a[0] && (a + b)[1..] == a[1..] + b;
      CommasAppend(a[1..], b);
    } else {
      assert a + b == b;
    }
  }

  lemma {:induction false} PlainHasNoCommas(name: string)
    requires Plain(name)
    ensures Commas(name) == 0
    decreases |name|
  {
    if name != [] {
      PlainHasNoCommas(name[1..]);
    }
  }

  /**
   * Python's `','.join(names)`: joining comma-free names puts exactly one
   * separator between each two, so the text holds one comma fewer than there
   * are names.
   */
  function Join(names: seq<string>): (s: string)
    ensures AllPlain(names) && names != [] ==> Commas(s) == |names| - 1
  {
    if |names| == 0 then ""
    else if |names| == 1 then
      assert AllPlain(names) ==> Commas(names[0]) == 0 by {
        if AllPlain(names) { PlainHasNoCommas(names[0]); }
      }
      names[0]
    else
      var rest := Join(names[1..]);
      assert AllPlain(names) ==> Commas(names[0] + [Separator] + rest) == |names| - 1 by {
        if AllPlain(names) {
          assert AllPlain(names[1..]);
          PlainHasNoCommas(names[0]);
          CommasAppend(names[0] + [Separator], rest);
          CommasAppend(names[0], [Separator]);
        }
      }
      names[0] + [Separator] + rest
  }

  /**
   * Python's `s.split(',')`: one piece more than there are commas, no piece
   * holds a comma, and joining the pieces again gives `s` back.
   */
  function Split(s: string): (pieces: seq<string>)
    ensures |pieces| == Commas(s) + 1
    ensures AllPlain(pieces)
    ensures Join(pieces) == s
  {
    if s == [] then [""]
    else
      var rest := Split(s[1..]);
      if s[0] == Separator then
        assert s == [Separator] + s[1..];
        [""] + rest
      else
        var pieces := [[s[0]] + rest[0]] + rest[1..];
        assert pieces[1..] == rest[1..];
        assert s == [s[0]] + s[1..];
        pieces
  }

  /** Reading a stored cell: NULL and the empty string both mean "no prerequisites". */
  function Decode(cell: Option<string>): (names: seq<string>)
    ensures cell.Some? ==> Join(names) == cell.value
    ensures AllPlain(names)
    ensures names == [] <==> cell == None || cell == Some("")
  {
    match cell
    case None => []
    case Some(s) => if s == "" then [] else Split(s)
  }

  /**
   * Writing a cell: what `add_course` stores. Reading it back gives the list
   * again, as long as no name holds a comma and the list is not the single
   * empty name.
   */
  function Encode(names: seq<string>): (cell: string)
    ensures AllPlain(names) && names != [""] ==> Decode(Some(cell)) == names
  {
    var cell := Join(names);
    assert AllPlain(names) && names != [""] ==> Decode(Some(cell)) == names by {
      if AllPlain(names) && names != [""] && names != [] && cell != "" {
        JoinInjective(Split(cell), names);
      }
    }
    cell
  }

  /** The separator sits right after the first piece. */
  lemma SeparatorAfter(x: string, y: string)
    ensures (x + [Separator] + y)[|x|] == Separator
    ensures (x + [Separator] + y)[..|x|] == x
  {
  }

  /** Two comma-joined texts whose first pieces are comma-free agree piecewise. */
  lemma FirstPieceUnique(x: string, y: string, x': string, y': string)
    requires Plain(x) && Plain(x')
    requires x + [Separator] + y == x' + [Separator] + y'
    ensures x == x' && y == y'
  {
    var s := x + [Separator] + y;
    SeparatorAfter(x, y);
    SeparatorAfter(x', y');
    if |x| == |x'| {
      assert x == s[..|x|] == x';
      assert y == s[|x| + 1..] == y';
    }
  }

  /** Joining is injective on non-empty lists of comma-free names. */
  lemma {:induction false} JoinInjective(a: seq<string>, b: seq<string>)
    requires |a| >= 1 && |b| >= 1
    requires AllPlain(a) && AllPlain(b)
    requires Join(a) == Join(b)
    ensures a == b
  {
    if |a| >= 2 && |b| >= 2 {
      FirstPieceUnique(a[0], Join(a[1..]), b[0], Join(b[1..]));
      JoinInjective(a[1..], b[1..]);
      assert a == [a[0]] + a[1..] && b == [b[0]] + b[1..];
    }
  }

  /** The two inputs on which the encoding is lossy. */
  lemma EncodeLossy()
    ensures Decode(Some(Encode([""]))) == []
    ensures Decode(Some(Encode(["a,b"]))) == ["a", "b"]
  {
    var pieces := Decode(Some(Encode(["a,b"])));
    JoinInjective(pieces, ["a", "b"]);
  }
}
