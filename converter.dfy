/**
 * The dump-to-tree converter: reads the lines print_r() writes for a nested
 * array and rebuilds the array. The builder keeps the root array, the
 * current array it writes into and the stack of arrays it descended from.
 * PHP holds "current" and the stack entries as references; here each is the
 * path of keys that leads from the root to that array.
 */
module Converter {
  import opened Wrappers
  import opened PhpStrings
  import opened PhpNumeric
  import opened Tree

  /** The characters trim($key, "[] \t\r\n") removes around a key. */
  const KeyTrim: set<char> := {'[', ']', ' ', '\t', '\r', '\n'}

  /** The sentinel value that opens a nested array. */
  const ArraySentinel: string := "Array"

  datatype LineKind =
    | Blank
    | Open
    | Close
    | KeyValue(key: string, value: string)
    | Ignored

  /** The key of "[key] => value": trim() the left part, then strip brackets and blanks. */
  function KeyOf(left: string): (key: string)
    ensures |key| <= |left|
    ensures key == [] || (key[0] !in KeyTrim && key[|key| - 1] !in KeyTrim)
  {
    Trim(Trim(left, DefaultTrim), KeyTrim)
  }

  /** What a line of the dump says, decided in the order the converter tests it. */
  function Classify(line: string): (kind: LineKind)
    ensures kind == Blank <==> Trim(line, DefaultTrim) == ""
    ensures kind == Open <==> Trim(line, DefaultTrim) == "("
    ensures kind == Close <==> Trim(line, DefaultTrim) == ")"
    ensures kind == Ignored <==> Trim(line, DefaultTrim) !in {"", "(", ")"} && !ContainsArrow(line)
  {
    var trim := Trim(line, DefaultTrim);
    if trim == "" then Blank
    else if trim == "(" then Open
    else if trim == ")" then Close
    else match SplitAtArrow(line)
      case None => Ignored
      case Some((left, right)) => KeyValue(KeyOf(left), Trim(right, DefaultTrim))
  }

  predicate IsQuote(c: char)
  {
    c == '"' || c == '\''
  }

  /** v starts and ends with the same quote character. */
  predicate Quoted(v: string)
  {
    |v| >= 2 && IsQuote(v[0]) && v[|v| - 1] == v[0]
  }

  /** Removes one pair of matching quotes around v, if v has one. */
  function StripQuotes(v: string): (r: string)
    ensures if Quoted(v) then v == [v[0]] + r + [v[0]] else r == v
  {
    if |v| >= 2 && ((v[0] == '"' && v[|v| - 1] == '"') || (v[0] == '\'' && v[|v| - 1] == '\'')) then
      assert v == [v[0]] + v[1..|v| - 1] + [v[|v| - 1]];
      v[1..|v| - 1]
    else v
  }

  /** A numeric string becomes a float if it has a decimal point and an int otherwise. */
  function Coerce(v: string): (n: Node)
    ensures !n.Map?
    ensures n.Str? <==> !IsNumeric(v)
    ensures n.Float? <==> IsNumeric(v) && '.' in v
    ensures n.Int? ==> IntMin <= n.i <= IntMax
  {
    if IsNumeric(v) then (if '.' in v then Float(v) else Int(IntCast(v))) else Str(v)
  }

  /** The scalar a raw value other than "Array" is stored as. */
  function NormalizeScalar(value: string): (n: Node)
    ensures Quoted(value) ==> n == Coerce(value[1..|value| - 1])
    ensures !Quoted(value) ==> n == Coerce(value)
  {
    Coerce(StripQuotes(value))
  }

  /** The text of a scalar: a string as it is, an int in decimal, a float as the text it came from. */
  function ScalarText(n: Node): string
    requires !n.Map?
  {
    match n
    case Str(s) => s
    case Int(i) => Decimal(i)
    case Float(t) => t
  }

  /** Coercion keeps the text of every value that does not become an int. */
  lemma CoerceKeepsText(v: string)
    ensures !Coerce(v).Int? ==> ScalarText(Coerce(v)) == v
  {
  }

  /** A scalar that the converter can produce is produced again from its own text. */
  lemma {:induction false} CoerceScalarText(n: Node)
    requires n.Str? ==> !IsNumeric(n.s)
    requires n.Int? ==> IntMin <= n.i <= IntMax
    requires n.Float? ==> IsNumeric(n.text) && '.' in n.text
    requires !n.Map?
    ensures Coerce(ScalarText(n)) == n
  {
    if n.Int? {
      DecimalRoundTrip(n.i);
    }
  }

  /** Quoting a value does not keep it from being read as a number. */
  lemma QuotedIsCoerced(q: char, v: string)
    requires IsQuote(q)
    ensures NormalizeScalar([q] + v + [q]) == Coerce(v)
  {
    var w := [q] + v + [q];
    assert w[0] == q && w[|w| - 1] == q;
    assert w == [q] + v + [q];
  }

  /** A value with a quote at one end only is kept as it is. */
  lemma MismatchedQuotesKept(v: string)
    requires |v| >= 2 && IsQuote(v[0]) && v[|v| - 1] != v[0]
    ensures NormalizeScalar(v) == Coerce(v)
  {
  }

  /** A quoted string of digits is stored as the int it denotes: the quoted "007" becomes 7. */
  lemma QuotedDigitsAreInt(d: string)
    requires d != [] && AllDigits(d)
    ensures NormalizeScalar("\"" + d + "\"") == Int(Saturate(DigitsValue(d)))
  {
    QuotedIsCoerced('"', d);
    DigitStringCast(d);
  }

  lemma QuotedZeroPaddedIsInt(v: string)
    requires v == "\"007\""
    ensures NormalizeScalar(v) == Int(7)
  {
    assert |v| == 5 && v[0] == '"' && v[1] == '0' && v[2] == '0' && v[3] == '7' && v[4] == '"';
    var d := v[1..4];
    assert v == "\"" + d + "\"";
    assert AllDigits(d);
    assert DigitsValue(d) == 7 by {
      var d2, d1 := d[..2], d[..1];
      assert d2[..1] == d1 && d1[..0] == [];
      assert DigitsValue(d1) == 10 * DigitsValue([]) + DigitValue('0') == 0;
      assert DigitsValue(d2) == 10 * DigitsValue(d1) + DigitValue('0') == 0;
      assert DigitsValue(d) == 10 * DigitsValue(d2) + DigitValue('7') == 7;
    }
    QuotedDigitsAreInt(d);
  }

  /** The builder: the root array, the path of the array being filled and the stack of paths of its ancestors. */
  datatype State = State(root: seq<Entry>, current: seq<string>, stack: seq<seq<string>>)

  /**
   * The builder's invariant: the stack holds the paths of all ancestors of the
   * current array, outermost first (so its length is the nesting depth), the
   * current path leads to an array, and no array has a key twice.
   */
  predicate Valid(s: State)
  {
    |s.stack| == |s.current| &&
    (forall i :: 0 <= i < |s.stack| ==> s.stack[i] == s.current[..i]) &&
    MapAt(s.root, s.current) &&
    WellFormedEntries(s.root)
  }

  /** Every path on the stack leads to an array: each ancestor is an array the converter can return to. */
  lemma StackHoldsArrays(s: State)
    requires Valid(s)
    ensures forall i :: 0 <= i < |s.stack| ==> MapAt(s.root, s.stack[i])
  {
    forall i | 0 <= i < |s.stack| ensures MapAt(s.root, s.stack[i]) {
      MapAtPrefix(s.root, s.current, i);
    }
  }

  /** The builder before the first line: an empty root, which is also the current array. */
  const Init: State := State([], [], [])

  lemma InitValid()
    ensures Valid(Init)
  {
    assert At(Map([]), []) == Some(Map([]));
  }

  /** An array value opens a child array under the key, keeping an existing one. */
  function Descend(s: State, key: string): (r: State)
    requires Valid(s)
    ensures Valid(r)
    ensures r.current == s.current + [key] && r.stack == s.stack + [s.current]
  {
    var here := Sub(s.root, s.current);
    var existing := Lookup(here, key);
    var root := if existing.Some? && existing.value.Map? then s.root else Replace(s.root, s.current, Put(here, key, Map([])));
    ValidAfterDescend(s, key);
    State(root, s.current + [key], s.stack + [s.current])
  }

  /** A scalar value is stored under the key of the current array. */
  function Assign(s: State, key: string, value: string): (r: State)
    requires Valid(s)
    ensures Valid(r)
    ensures r.current == s.current && r.stack == s.stack
    ensures Lookup(Sub(r.root, r.current), key) == Some(NormalizeScalar(value))
  {
    var here := Sub(s.root, s.current);
    SubWellFormed(s.root, s.current);
    PutWellFormed(here, key, NormalizeScalar(value));
    var root := Replace(s.root, s.current, Put(here, key, NormalizeScalar(value)));
    ReplaceWellFormed(s.root, s.current, Put(here, key, NormalizeScalar(value)));
    State(root, s.current, s.stack)
  }

  /** A ")" line returns to the parent array, if there is one. */
  function Ascend(s: State): (r: State)
    requires Valid(s)
    ensures Valid(r)
    ensures r.root == s.root
    ensures s.stack == [] ==> r == s
    ensures s.stack != [] ==> r.current == s.stack[|s.stack| - 1] && r.stack == s.stack[..|s.stack| - 1]
  {
    if s.stack == [] then s
    else
      var n := |s.stack| - 1;
      MapAtPrefix(s.root, s.current, n);
      State(s.root, s.stack[n], s.stack[..n])
  }

  /** What one line does to the builder. */
  function Step(s: State, line: string): (r: State)
    requires Valid(s)
    ensures Valid(r)
  {
    match Classify(line)
    case Blank => s
    case Open => s
    case Ignored => s
    case Close => Ascend(s)
    case KeyValue(key, value) =>
      if value == ArraySentinel then Descend(s, key) else Assign(s, key, value)
  }

  /** The builder after all lines, in order. */
  function Run(s: State, lines: seq<string>): (r: State)
    requires Valid(s)
    ensures Valid(r)
    decreases |lines|
  {
    if lines == [] then s else Run(Step(s, lines[0]), lines[1..])
  }

  lemma ValidAfterDescend(s: State, key: string)
    requires Valid(s)
    ensures var here := Sub(s.root, s.current);
      var existing := Lookup(here, key);
      var root := if existing.Some? && existing.value.Map? then s.root else Replace(s.root, s.current, Put(here, key, Map([])));
      Valid(State(root, s.current + [key], s.stack + [s.current]))
  {
    var here := Sub(s.root, s.current);
    var existing := Lookup(here, key);
    var root := if existing.Some? && existing.value.Map? then s.root else Replace(s.root, s.current, Put(here, key, Map([])));
    if !(existing.Some? && existing.value.Map?) {
      SubWellFormed(s.root, s.current);
      PutWellFormed(here, key, Map([]));
      ReplaceWellFormed(s.root, s.current, Put(here, key, Map([])));
    }
    MapAtChild(root, s.current, key);
    PushedStack(s.stack, s.current, key);
  }

  /** Pushing the current path keeps the stack made of the current path's prefixes. */
  lemma PushedStack(stack: seq<seq<string>>, current: seq<string>, key: string)
    requires |stack| == |current| && forall i :: 0 <= i < |stack| ==> stack[i] == current[..i]
    ensures var c, st := current + [key], stack + [current];
      |st| == |c| && forall i :: 0 <= i < |st| ==> st[i] == c[..i]
  {
    var c := current + [key];
    var st := stack + [current];
    forall i | 0 <= i < |st| ensures st[i] == c[..i] {
      if i < |stack| {
        assert c[..i] == current[..i];
      } else {
        assert c[..i] == current;
      }
    }
  }

  /**
   * The converter's loop: each line is trimmed and classified, "(" and blank
   * lines are skipped, ")" pops the stack, and "key => value" lines either
   * descend into an array or store a scalar. The result is always the root,
   * whatever depth the lines end at.
   */
  method Convert(lines: seq<string>) returns (result: seq<Entry>)
    ensures result == Run(Init, lines).root
    ensures WellFormedEntries(result)
  {
    result := [];
    var current: seq<string> := [];
    var stack: seq<seq<string>> := [];
    for i := 0 to |lines|
      invariant Valid(State(result, current, stack))
      invariant Run(State(result, current, stack), lines[i..]) == Run(Init, lines)
    {
      ghost var before := State(result, current, stack);
      var line := lines[i];
      var trim := Trim(line, DefaultTrim);
      if trim == "" || trim == "(" {
      } else if trim == ")" {
        if stack != [] {
          current := stack[|stack| - 1];
          stack := stack[..|stack| - 1];
        }
      } else {
        var parts := SplitAtArrow(line);
        if parts.Some? {
          var key := KeyOf(parts.value.0);
          var value := Trim(parts.value.1, DefaultTrim);
          var here := Sub(result, current);
          if value == ArraySentinel {
            var existing := Lookup(here, key);
            if !(existing.Some? && existing.value.Map?) {
              result := Replace(result, current, Put(here, key, Map([])));
            }
            stack := stack + [current];
            current := current + [key];
          } else {
            result := Replace(result, current, Put(here, key, NormalizeScalar(value)));
          }
        }
      }
      assert State(result, current, stack) == Step(before, line);
      assert lines[i..][1..] == lines[i + 1..];
    }
  }

  /** Neither character of "=>" is one trim() removes. */
  lemma ArrowNotTrimmed()
    ensures '=' !in DefaultTrim && '>' !in DefaultTrim
  {
  }

  /** A line with "=>" trims to at least two characters, so it is never a blank, "(" or ")" line. */
  lemma ArrowLineIsNoMarker(line: string)
    requires ContainsArrow(line)
    ensures |Trim(line, DefaultTrim)| >= 2
  {
    var i :| 0 <= i < |line| && ArrowAt(line, i);
    var r := Trim(line, DefaultTrim);
    var a := |line| - |TrimLeft(line, DefaultTrim)|;
    assert line[i] == '=' && line[i + 1] == '>';
    ArrowNotTrimmed();
    assert a <= i;
    assert i + 1 < a + |r|;
  }

  /**
   * A line with "=>" is split at the first occurrence: the key is the left
   * part trimmed, then stripped of brackets and blanks; the value is the
   * right part trimmed, and may itself contain "=>".
   */
  lemma KeyValueLine(left: string, right: string)
    requires !ContainsArrow(left)
    ensures Classify(left + "=>" + right) == KeyValue(KeyOf(left), Trim(right, DefaultTrim))
  {
    var line := left + "=>" + right;
    assert ArrowAt(line, |left|);
    ArrowLineIsNoMarker(line);
    SplitAtFirstArrow(left, right);
  }

  /** Blank lines and "(" lines change nothing. */
  lemma BlankOrOpenIsNoOp(s: State, line: string)
    requires Valid(s)
    requires Trim(line, DefaultTrim) == "" || Trim(line, DefaultTrim) == "("
    ensures Step(s, line) == s
  {
  }

  /** A line that is no marker and has no "=>" changes nothing. */
  lemma UnrecognizedIsNoOp(s: State, line: string)
    requires Valid(s)
    requires Trim(line, DefaultTrim) !in {"", "(", ")"} && !ContainsArrow(line)
    ensures Step(s, line) == s
  {
  }

  /**
   * A ")" line with an empty stack changes nothing; otherwise it pops one
   * entry and makes the popped parent the current array.
   */
  lemma CloseLine(s: State, line: string)
    requires Valid(s) && Trim(line, DefaultTrim) == ")"
    ensures s.stack == [] ==> Step(s, line) == s
    ensures s.stack != [] ==>
      Step(s, line) == State(s.root, s.stack[|s.stack| - 1], s.stack[..|s.stack| - 1]) &&
      s.stack[|s.stack| - 1] == s.current[..|s.current| - 1]
  {
  }

  /**
   * An "Array" value pushes the current array and moves into the array at the
   * key: an existing array there is kept with its contents, anything else is
   * replaced by an empty array. No other key of the parent, and nothing off
   * the path to the new current array, changes.
   */
  lemma DescendLine(s: State, line: string, key: string)
    requires Valid(s) && Classify(line) == KeyValue(key, ArraySentinel)
    ensures var r := Step(s, line);
      var here := Sub(s.root, s.current);
      var old_child := Lookup(here, key);
      r.stack == s.stack + [s.current] && |r.stack| == |s.stack| + 1 &&
      r.current == s.current + [key] &&
      MapAt(r.root, s.current) &&
      Sub(r.root, r.current) == (if old_child.Some? && old_child.value.Map? then old_child.value.entries else []) &&
      (forall k :: k != key ==> Lookup(Sub(r.root, s.current), k) == Lookup(here, k)) &&
      (forall q :: !(q <= s.current) && !(r.current <= q) ==> At(Map(r.root), q) == At(Map(s.root), q))
  {
    var r := Step(s, line);
    var here := Sub(s.root, s.current);
    var old_child := Lookup(here, key);
    MapAtPrefix(r.root, r.current, |s.current|);
    assert r.current[..|s.current|] == s.current;
    MapAtChild(r.root, s.current, key);
    if !(old_child.Some? && old_child.value.Map?) {
      forall q | !(q <= s.current) && !(r.current <= q) ensures At(Map(r.root), q) == At(Map(s.root), q) {
        AtAfterPut(s.root, s.current, key, Map([]), q);
      }
    }
  }

  /** What Assign does to the current array. */
  lemma AssignHere(s: State, key: string, value: string)
    requires Valid(s)
    ensures MapAt(Assign(s, key, value).root, s.current)
    ensures Lookup(Sub(Assign(s, key, value).root, s.current), key) == Some(NormalizeScalar(value))
    ensures forall k :: k != key ==>
      Lookup(Sub(Assign(s, key, value).root, s.current), k) == Lookup(Sub(s.root, s.current), k)
  {
  }

  /** What Assign does to the rest of the tree. */
  lemma AssignElsewhere(s: State, key: string, value: string)
    requires Valid(s)
    ensures forall q :: !(q <= s.current) && !(s.current + [key] <= q) ==>
      At(Map(Assign(s, key, value).root), q) == At(Map(s.root), q)
    ensures forall q :: s.current + [key] < q ==> At(Map(Assign(s, key, value).root), q) == None
  {
    var v := NormalizeScalar(value);
    ScalarOffPath(s.root, s.current, key, v);
    assert Assign(s, key, value).root == Replace(s.root, s.current, Put(Sub(s.root, s.current), key, v));
  }

  /** Storing a scalar changes no node off its path and leaves nothing below it. */
  lemma ScalarOffPath(es: seq<Entry>, p: seq<string>, k: string, v: Node)
    requires MapAt(es, p) && !v.Map?
    ensures var r := Replace(es, p, Put(Sub(es, p), k, v));
      (forall q :: !(q <= p) && !(p + [k] <= q) ==> At(Map(r), q) == At(Map(es), q)) &&
      (forall q :: p + [k] < q ==> At(Map(r), q) == None)
  {
    var r := Replace(es, p, Put(Sub(es, p), k, v));
    PutOffPath(es, p, k, v);
    forall q | p + [k] < q ensures At(Map(r), q) == None {
      assert At(Map(r), q) == At(v, q[|p| + 1..]);
    }
  }

  /**
   * Any other value is normalised and stored under the key, overwriting what
   * was there, an array included (last write wins). The current array and the
   * stack stay as they are, and no other node changes, except what lay below
   * the overwritten key.
   */
  lemma AssignLine(s: State, line: string, key: string, value: string)
    requires Valid(s) && Classify(line) == KeyValue(key, value) && value != ArraySentinel
    ensures Step(s, line).current == s.current && Step(s, line).stack == s.stack
    ensures Lookup(Sub(Step(s, line).root, s.current), key) == Some(NormalizeScalar(value))
    ensures forall k :: k != key ==>
      Lookup(Sub(Step(s, line).root, s.current), k) == Lookup(Sub(s.root, s.current), k)
    ensures forall q :: !(q <= s.current) && !(s.current + [key] <= q) ==>
      At(Map(Step(s, line).root), q) == At(Map(s.root), q)
    ensures forall q :: s.current + [key] < q ==> At(Map(Step(s, line).root), q) == None
  {
    assert Step(s, line) == Assign(s, key, value);
    AssignHere(s, key, value);
    AssignElsewhere(s, key, value);
  }

  /** A scalar under a key the current array lacks is appended to it. */
  lemma StepNewScalar(s: State, line: string, key: string, text: string, v: Node)
    requires Valid(s) && Classify(line) == KeyValue(key, text) && text != ArraySentinel
    requires NormalizeScalar(text) == v && key !in Keys(Sub(s.root, s.current))
    ensures Step(s, line) == State(Replace(s.root, s.current, Sub(s.root, s.current) + [Entry(key, v)]), s.current, s.stack)
  {
    PutAppends(Sub(s.root, s.current), key, v);
  }

  /** An "Array" value under a key the current array lacks appends an empty array there and moves into it. */
  lemma StepNewArray(s: State, line: string, key: string)
    requires Valid(s) && Classify(line) == KeyValue(key, ArraySentinel)
    requires key !in Keys(Sub(s.root, s.current))
    ensures Step(s, line) == State(Replace(s.root, s.current, Sub(s.root, s.current) + [Entry(key, Map([]))]), s.current + [key], s.stack + [s.current])
  {
    assert Step(s, line) == Descend(s, key);
    DescendNew(s, key);
  }

  lemma DescendNew(s: State, key: string)
    requires Valid(s) && key !in Keys(Sub(s.root, s.current))
    ensures Descend(s, key) == State(Replace(s.root, s.current, Sub(s.root, s.current) + [Entry(key, Map([]))]), s.current + [key], s.stack + [s.current])
  {
    PutAppends(Sub(s.root, s.current), key, Map([]));
  }

  /** Opening a new key as an empty array leaves a builder state that is valid. */
  lemma NewChildValid(s: State, key: string)
    requires Valid(s) && key !in Keys(Sub(s.root, s.current))
    ensures Valid(State(Replace(s.root, s.current, Sub(s.root, s.current) + [Entry(key, Map([]))]), s.current + [key], s.stack + [s.current]))
  {
    ValidAfterDescend(s, key);
    PutAppends(Sub(s.root, s.current), key, Map([]));
  }

  /** Running a + b runs a, then b. */
  lemma RunThrough(s: State, a: seq<string>, b: seq<string>, mid: State, fin: State)
    requires Valid(s) && Run(s, a) == mid && Run(mid, b) == fin
    ensures Run(s, a + b) == fin
  {
    RunAppend(s, a, b);
  }

  lemma RunOne(s: State, line: string)
    requires Valid(s)
    ensures Run(s, [line]) == Step(s, line)
  {
    assert [line][1..] == [];
  }

  lemma RunTwo(s: State, a: string, b: string)
    requires Valid(s)
    ensures Run(s, [a, b]) == Step(Step(s, a), b)
  {
    assert [a, b][1..] == [b];
    RunOne(Step(s, a), b);
  }

  /** New keys of an array are appended, in the order their lines come. */
  lemma KeyOrder(s: State, line: string, key: string, value: string)
    requires Valid(s) && Classify(line) == KeyValue(key, value)
    ensures var here := Sub(s.root, s.current);
      var r := Step(s, line);
      MapAt(r.root, s.current) &&
      Keys(Sub(r.root, s.current)) == if key in Keys(here) then Keys(here) else Keys(here) + [key]
  {
    var here := Sub(s.root, s.current);
    var r := Step(s, line);
    if value == ArraySentinel {
      DescendLine(s, line, key);
      var old_child := Lookup(here, key);
      if !(old_child.Some? && old_child.value.Map?) {
        PutKeys(here, key, Map([]));
      }
    } else {
      PutKeys(here, key, NormalizeScalar(value));
    }
  }

  lemma {:induction false} RunAppend(s: State, a: seq<string>, b: seq<string>)
    requires Valid(s)
    ensures Run(s, a + b) == Run(Run(s, a), b)
    decreases |a|
  {
    if a == [] {
      assert a + b == b;
    } else {
      assert (a + b)[0] == a[0] && (a + b)[1..] == a[1..] + b;
      RunAppend(Step(s, a[0]), a[1..], b);
    }
  }

  /** Lines without "=>" never change the tree, whatever their markers do to the depth. */
  lemma {:induction false} RunWithoutKeyValues(s: State, lines: seq<string>)
    requires Valid(s)
    requires forall i :: 0 <= i < |lines| ==> !ContainsArrow(lines[i])
    ensures Run(s, lines).root == s.root
    decreases |lines|
  {
    if lines != [] {
      assert Step(s, lines[0]).root == s.root;
      RunWithoutKeyValues(Step(s, lines[0]), lines[1..]);
    }
  }

  /** An input of blank lines and markers only gives the empty array. */
  lemma OnlyMarkersGiveEmptyArray(lines: seq<string>)
    requires forall i :: 0 <= i < |lines| ==> !ContainsArrow(lines[i])
    ensures Run(Init, lines).root == []
  {
    InitValid();
    RunWithoutKeyValues(Init, lines);
  }
}
