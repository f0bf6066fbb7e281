/**
 * The text print_r() writes for an array, as the lines the converter reads,
 * and the proof that converting that text gives the array back.
 *
 * print_r writes "Array", then "(", then one line "[key] => value" per
 * entry, indented four spaces past the parenthesis, then ")". A nested array
 * is written as the value "Array", followed by its own parenthesised block
 * indented eight spaces further and an empty line. Scalars are written raw:
 * a string as itself, an int in decimal, a float as its text.
 */
module PrintR {
  import opened Wrappers
  import opened PhpStrings
  import opened PhpNumeric
  import opened Tree
  import opened Converter

  /** n spaces. */
  function Pad(n: nat): (r: string)
    ensures |r| == n && AllIn(r, DefaultTrim)
  {
    seq(n, _ => ' ')
  }

  /** The indented, bracketed key of an entry of an array nested d levels deep. */
  function KeySide(d: nat, key: string): string
  {
    Pad(8 * d + 4) + "[" + key + "] "
  }

  /** The line for one entry: "[key] => value". */
  function KeyLine(d: nat, key: string, text: string): string
  {
    KeySide(d, key) + "=>" + (" " + text)
  }

  function DumpEntries(es: seq<Entry>, d: nat): seq<string>
  {
    if es == [] then [] else DumpEntry(es[0], d) + DumpEntries(es[1..], d)
  }

  function DumpEntry(e: Entry, d: nat): seq<string>
  {
    match e.value
    case Map(children) =>
      [KeyLine(d, e.key, ArraySentinel), Pad(8 * d + 8) + "("] + (DumpEntries(children, d + 1) + [Pad(8 * d + 8) + ")", ""])
    case _ => [KeyLine(d, e.key, ScalarText(e.value))]
  }

  /** print_r($root), one element per line. */
  function Dump(root: seq<Entry>): seq<string>
  {
    [ArraySentinel, "("] + DumpEntries(root, 0) + [")"]
  }

  /** A text that trim() leaves as it is. */
  predicate Untrimmed(t: string)
  {
    t == [] || (t[0] !in DefaultTrim && t[|t| - 1] !in DefaultTrim)
  }

  /** A key the converter reads back: no "=>", no line feed, and no bracket or blank at either end. */
  predicate ReadableKey(k: string)
  {
    !ContainsArrow(k) && '\n' !in k && (k == [] || (k[0] !in KeyTrim && k[|k| - 1] !in KeyTrim))
  }

  /**
   * A scalar the converter reads back from its print_r text: a string that
   * holds no line feed and is not numeric, not "Array", not quoted and not
   * padded; an int in PHP's range; a float whose text holds no line feed, is
   * numeric, has a decimal point and is not padded.
   */
  predicate ReadableScalar(n: Node)
  {
    match n
    case Str(t) => Untrimmed(t) && '\n' !in t && t != ArraySentinel && !Quoted(t) && !IsNumeric(t)
    case Int(i) => IntMin <= i <= IntMax
    case Float(t) => Untrimmed(t) && '\n' !in t && IsNumeric(t) && '.' in t
    case Map(_) => false
  }

  predicate ReadableEntry(e: Entry)
  {
    ReadableKey(e.key) &&
    match e.value
    case Map(children) => ReadableEntries(children)
    case _ => ReadableScalar(e.value)
  }

  /** An array whose print_r text converts back to it: distinct keys, readable keys and scalars throughout. */
  predicate ReadableEntries(es: seq<Entry>)
  {
    Distinct(Keys(es)) && forall i :: 0 <= i < |es| ==> ReadableEntry(es[i])
  }

  /** No line holds a line feed, so the lines are the ones file() splits the text into. */
  predicate NoLineFeed(lines: seq<string>)
  {
    forall i :: 0 <= i < |lines| ==> '\n' !in lines[i]
  }

  lemma NoLineFeedConcat(a: seq<string>, b: seq<string>)
    requires NoLineFeed(a) && NoLineFeed(b)
    ensures NoLineFeed(a + b)
  {
    forall i | 0 <= i < |a + b| ensures '\n' !in (a + b)[i] {
      if i >= |a| {
        assert (a + b)[i] == b[i - |a|];
      }
    }
  }

  lemma KeyLineNoLineFeed(d: nat, key: string, text: string)
    requires '\n' !in key && '\n' !in text
    ensures '\n' !in KeyLine(d, key, text)
  {
    var pad := Pad(8 * d + 4);
    assert '\n' !in pad by {
      assert forall j :: 0 <= j < |pad| ==> pad[j] == ' ';
    }
  }

  lemma ScalarTextNoLineFeed(n: Node)
    requires ReadableScalar(n)
    ensures '\n' !in ScalarText(n)
  {
    if n.Int? {
      var i := n.i;
      var ds := Digits(if i < 0 then -i else i);
      assert '\n' !in ds by {
        assert forall j :: 0 <= j < |ds| ==> IsDigit(ds[j]);
      }
    }
  }

  /** No line print_r writes for a readable array holds a line feed. */
  lemma DumpNoLineFeed(root: seq<Entry>)
    requires ReadableEntries(root)
    ensures NoLineFeed(Dump(root))
  {
    DumpEntriesNoLineFeed(root, 0);
    NoLineFeedConcat(DumpEntries(root, 0), [")"]);
    NoLineFeedConcat([ArraySentinel, "("], DumpEntries(root, 0) + [")"]);
    assert Dump(root) == [ArraySentinel, "("] + (DumpEntries(root, 0) + [")"]);
  }

  lemma {:induction false} DumpEntriesNoLineFeed(es: seq<Entry>, d: nat)
    requires ReadableEntries(es)
    ensures NoLineFeed(DumpEntries(es, d))
    decreases es
  {
    if es != [] {
      assert ReadableEntry(es[0]);
      assert ReadableEntries(es[1..]) by {
        var ks := Keys(es);
        assert Keys(es[1..]) == ks[1..];
        forall i | 0 <= i < |es| - 1 ensures ReadableEntry(es[1..][i]) {
          assert es[1..][i] == es[i + 1];
        }
      }
      DumpEntryNoLineFeed(es[0], d);
      DumpEntriesNoLineFeed(es[1..], d);
      NoLineFeedConcat(DumpEntry(es[0], d), DumpEntries(es[1..], d));
    }
  }

  lemma {:induction false} DumpEntryNoLineFeed(e: Entry, d: nat)
    requires ReadableEntry(e)
    ensures NoLineFeed(DumpEntry(e, d))
    decreases e
  {
    if e.value.Map? {
      var children := e.value.entries;
      var pad := Pad(8 * d + 8);
      assert '\n' !in pad by {
        assert forall j :: 0 <= j < |pad| ==> pad[j] == ' ';
      }
      KeyLineNoLineFeed(d, e.key, ArraySentinel);
      DumpEntriesNoLineFeed(children, d + 1);
      NoLineFeedConcat(DumpEntries(children, d + 1), [pad + ")", ""]);
      NoLineFeedConcat([KeyLine(d, e.key, ArraySentinel), pad + "("], DumpEntries(children, d + 1) + [pad + ")", ""]);
    } else {
      ScalarTextNoLineFeed(e.value);
      KeyLineNoLineFeed(d, e.key, ScalarText(e.value));
    }
  }

  lemma NoArrowBeforeSeparator(n: nat, key: string)
    requires !ContainsArrow(key)
    ensures !ContainsArrow(Pad(n) + "[" + key + "] ")
  {
    var left := Pad(n) + "[" + key + "] ";
    forall i | 0 <= i < |left| ensures !ArrowAt(left, i) {
      if i < n {
        assert left[i] == ' ';
      } else if i == n {
        assert left[i] == '[';
      } else if i < n + 1 + |key| {
        assert left[i] == key[i - n - 1];
        if i + 1 < n + 1 + |key| {
          assert left[i + 1] == key[i - n];
          assert !ArrowAt(key, i - n - 1);
        } else {
          assert left[i + 1] == ']';
        }
      } else {
        assert left[i] == ']' || left[i] == ' ';
      }
    }
  }

  /** The bracketed key, as the converter cuts it out of its line. */
  lemma KeyReadBack(n: nat, key: string)
    requires ReadableKey(key)
    ensures KeyOf(Pad(n) + "[" + key + "] ") == key
  {
    PaddedBrackets(n, key);
    BracketsRead(key);
  }

  lemma PaddedBrackets(n: nat, key: string)
    ensures Trim(Pad(n) + "[" + key + "] ", DefaultTrim) == "[" + key + "]"
  {
    var bracketed := "[" + key + "]";
    assert Pad(n) + "[" + key + "] " == Pad(n) + bracketed + " ";
    assert bracketed[0] == '[' && bracketed[|bracketed| - 1] == ']';
    TrimPadded(Pad(n), bracketed, " ", DefaultTrim);
  }

  lemma BracketsRead(key: string)
    requires ReadableKey(key)
    ensures Trim("[" + key + "]", KeyTrim) == key
  {
    if key == [] {
      assert "[" + key + "]" == "[]";
      assert AllIn("[]", KeyTrim);
    } else {
      TrimPadded("[", key, "]", KeyTrim);
    }
  }

  /** The value as the converter cuts it out of its line. */
  lemma ValueReadBack(text: string)
    requires Untrimmed(text)
    ensures Trim(" " + text, DefaultTrim) == text
  {
    if text != [] {
      assert " " + text == " " + text + "";
      TrimPadded(" ", text, "", DefaultTrim);
    }
  }

  /** An entry line is read as its key and its value text. */
  lemma KeyLineRead(d: nat, key: string, text: string)
    requires ReadableKey(key) && Untrimmed(text)
    ensures Classify(KeyLine(d, key, text)) == KeyValue(key, text)
  {
    NoArrowBeforeSeparator(8 * d + 4, key);
    KeyReadBack(8 * d + 4, key);
    ValueReadBack(text);
    KeyValueLine(KeySide(d, key), " " + text);
  }

  lemma DecimalEnds(i: int)
    ensures var t := Decimal(i); t != [] && (t[0] == '-' || IsDigit(t[0])) && IsDigit(t[|t| - 1])
  {
    if i < 0 {
      assert Decimal(i)[1..] == Digits(-i);
    }
  }

  lemma StrReadBack(t: string)
    requires ReadableScalar(Str(t))
    ensures NormalizeScalar(t) == Str(t)
  {
    CoerceScalarText(Str(t));
    assert ScalarText(Str(t)) == t;
  }

  lemma DecimalCharKept(c: char)
    requires c == '-' || IsDigit(c)
    ensures c !in DefaultTrim && !IsQuote(c) && c != 'A'
  {
  }

  lemma IntReadBack(i: int)
    requires ReadableScalar(Int(i))
    ensures Untrimmed(Decimal(i)) && Decimal(i) != ArraySentinel
    ensures NormalizeScalar(Decimal(i)) == Int(i)
  {
    var t := Decimal(i);
    DecimalEnds(i);
    DecimalCharKept(t[0]);
    DecimalCharKept(t[|t| - 1]);
    CoerceScalarText(Int(i));
    assert ScalarText(Int(i)) == t;
  }

  lemma NumericCharKept(c: char)
    requires c in NumericSpace || c == '+' || c == '-' || c == '.' || IsDigit(c)
    ensures !IsQuote(c)
  {
  }

  /** "Array" has no decimal point; the string arrives as a parameter equal to the literal, which keeps the proof cheap. */
  lemma SentinelHasNoDot(v: string)
    requires v == ArraySentinel
    ensures '.' !in v
  {
    assert |v| == 5 && v[0] == 'A' && v[1] == 'r' && v[2] == 'r' && v[3] == 'a' && v[4] == 'y';
  }

  lemma FloatReadBack(t: string)
    requires ReadableScalar(Float(t))
    ensures t != ArraySentinel
    ensures NormalizeScalar(t) == Float(t)
  {
    if t[0] !in NumericSpace {
      NumericFirstChar(t);
    }
    NumericCharKept(t[0]);
    SentinelHasNoDot(ArraySentinel);
    CoerceScalarText(Float(t));
    assert ScalarText(Float(t)) == t;
  }

  /** print_r's text of a readable scalar reads back as that scalar and not as "Array". */
  lemma ScalarReadBack(n: Node)
    requires ReadableScalar(n)
    ensures Untrimmed(ScalarText(n)) && ScalarText(n) != ArraySentinel
    ensures NormalizeScalar(ScalarText(n)) == n
  {
    match n
    case Str(t) => StrReadBack(t);
    case Int(i) => IntReadBack(i);
    case Float(t) => FloatReadBack(t);
  }

  /** A scalar entry's line appends the entry to the current array. */
  lemma RunScalarEntry(s: State, e: Entry, d: nat)
    requires Valid(s) && ReadableEntry(e) && !e.value.Map?
    requires e.key !in Keys(Sub(s.root, s.current))
    ensures Run(s, DumpEntry(e, d)) == State(Replace(s.root, s.current, Sub(s.root, s.current) + [e]), s.current, s.stack)
  {
    var text := ScalarText(e.value);
    var line := KeyLine(d, e.key, text);
    ScalarReadBack(e.value);
    KeyLineRead(d, e.key, text);
    assert DumpEntry(e, d) == [line];
    RunOne(s, line);
    StepNewScalar(s, line, e.key, text, e.value);
  }

  /**
   * The lines of a readable array append its entries to the current array
   * and leave the builder where it was.
   */
  lemma {:induction false} RunDumpEntries(s: State, es: seq<Entry>, d: nat)
    requires Valid(s) && ReadableEntries(es)
    requires forall i :: 0 <= i < |es| ==> es[i].key !in Keys(Sub(s.root, s.current))
    ensures Run(s, DumpEntries(es, d)) == State(Replace(s.root, s.current, Sub(s.root, s.current) + es), s.current, s.stack)
    decreases es
  {
    var here := Sub(s.root, s.current);
    if es == [] {
      assert here + es == here;
      ReplaceSub(s.root, s.current);
    } else {
      var e, rest := es[0], es[1..];
      var s1 := State(Replace(s.root, s.current, here + [e]), s.current, s.stack);
      RunDumpEntry(s, e, d);
      ReadableRest(here, es);
      RunDumpEntries(s1, rest, d);
      AppendFirst(here, es);
      ReplaceReplace(s.root, s.current, here + [e], here + es);
      RunThrough(s, DumpEntry(e, d), DumpEntries(rest, d), s1,
        State(Replace(s.root, s.current, here + es), s.current, s.stack));
    }
  }

  /** After the first entry of es is appended to here, the rest of es is still readable and new. */
  lemma ReadableRest(here: seq<Entry>, es: seq<Entry>)
    requires es != [] && ReadableEntries(es)
    requires forall i :: 0 <= i < |es| ==> es[i].key !in Keys(here)
    ensures ReadableEntries(es[1..])
    ensures forall i :: 0 <= i < |es| - 1 ==> es[1..][i].key !in Keys(here + [es[0]])
  {
    var e, rest := es[0], es[1..];
    assert Keys(es) == [e.key] + Keys(rest);
    KeysConcat(here, [e]);
    forall i | 0 <= i < |rest| ensures rest[i].key !in Keys(here + [e]) {
      KeysAt(es, 0);
      KeysAt(es, i + 1);
      assert es[i + 1] == rest[i];
    }
    forall i | 0 <= i < |rest| ensures ReadableEntry(rest[i]) {
      assert rest[i] == es[i + 1];
    }
    var ks := Keys(es);
    assert Keys(rest) == ks[1..];
    forall i, j | 0 <= i < j < |rest| ensures Keys(rest)[i] != Keys(rest)[j] {
      assert Keys(rest)[i] == ks[i + 1] && Keys(rest)[j] == ks[j + 1];
    }
  }

  lemma {:induction false} RunDumpEntry(s: State, e: Entry, d: nat)
    requires Valid(s) && ReadableEntry(e)
    requires e.key !in Keys(Sub(s.root, s.current))
    ensures Run(s, DumpEntry(e, d)) == State(Replace(s.root, s.current, Sub(s.root, s.current) + [e]), s.current, s.stack)
    decreases e
  {
    if !e.value.Map? {
      RunScalarEntry(s, e, d);
    } else {
      RunNestedEntry(s, e, d);
    }
  }

  /**
   * A nested array's lines: "[key] => Array" opens an empty child array,
   * "(" does nothing, the child's lines fill it, ")" returns to the parent
   * and the empty line does nothing.
   */
  lemma {:induction false} RunNestedEntry(s: State, e: Entry, d: nat)
    requires Valid(s) && ReadableEntry(e) && e.value.Map?
    requires e.key !in Keys(Sub(s.root, s.current))
    ensures Run(s, DumpEntry(e, d)) == State(Replace(s.root, s.current, Sub(s.root, s.current) + [e]), s.current, s.stack)
    decreases e, 1
  {
    SentinelLineRead(d, e.key, ArraySentinel);
    MarkersRead(d);
    NestedChild(s, e, d);
    RunNestedLines(s, e, d);
  }

  /** An entry line with the value "Array" reads as that key and value; the string arrives as a parameter equal to the literal, which keeps the proof cheap. */
  lemma SentinelLineRead(d: nat, key: string, v: string)
    requires ReadableKey(key) && v == ArraySentinel
    ensures Classify(KeyLine(d, key, v)) == KeyValue(key, v)
  {
    assert v[0] == 'A' && v[|v| - 1] == 'y';
    KeyLineRead(d, key, v);
  }

  /** The lines around a nested entry's children read as the two markers. */
  lemma MarkersRead(d: nat)
    ensures Trim(Pad(8 * d + 8) + "(", DefaultTrim) == "(" && Trim(Pad(8 * d + 8) + ")", DefaultTrim) == ")"
  {
    PaddedMarker(8 * d + 8, "(");
    PaddedMarker(8 * d + 8, ")");
  }

  /** The first line of a nested entry opens a new child that its entries' lines fill in. */
  lemma {:induction false} NestedChild(s: State, e: Entry, d: nat)
    requires Valid(s) && ReadableEntry(e) && e.value.Map?
    requires e.key !in Keys(Sub(s.root, s.current))
    ensures var s1 := State(Replace(s.root, s.current, Sub(s.root, s.current) + [Entry(e.key, Map([]))]), s.current + [e.key], s.stack + [s.current]);
      Valid(s1) && Run(s1, DumpEntries(e.value.entries, d + 1)) == State(Replace(s1.root, s1.current, e.value.entries), s1.current, s1.stack)
    decreases e, 0
  {
    var p, k, children := s.current, e.key, e.value.entries;
    var s1 := State(Replace(s.root, p, Sub(s.root, p) + [Entry(k, Map([]))]), p + [k], s.stack + [p]);
    NewChildValid(s, k);
    ReplaceNewChild(s.root, p, k, children);
    RunDumpEntries(s1, children, d + 1);
    assert [] + children == children;
  }

  /** The nested entry's lines, once its first line and markers are known to classify as they should. */
  lemma RunNestedLines(s: State, e: Entry, d: nat)
    requires Valid(s) && e.value.Map? && e.key !in Keys(Sub(s.root, s.current))
    requires Classify(KeyLine(d, e.key, ArraySentinel)) == KeyValue(e.key, ArraySentinel)
    requires Trim(Pad(8 * d + 8) + "(", DefaultTrim) == "(" && Trim(Pad(8 * d + 8) + ")", DefaultTrim) == ")"
    requires var s1 := State(Replace(s.root, s.current, Sub(s.root, s.current) + [Entry(e.key, Map([]))]), s.current + [e.key], s.stack + [s.current]);
      Valid(s1) && Run(s1, DumpEntries(e.value.entries, d + 1)) == State(Replace(s1.root, s1.current, e.value.entries), s1.current, s1.stack)
    ensures Run(s, DumpEntry(e, d)) == State(Replace(s.root, s.current, Sub(s.root, s.current) + [e]), s.current, s.stack)
  {
    var k, children := e.key, e.value.entries;
    assert e == Entry(k, Map(children));
    NestedLines(e, d);
    RunNested(s, DumpEntry(e, d), KeyLine(d, k, ArraySentinel), Pad(8 * d + 8) + "(", DumpEntries(children, d + 1),
      Pad(8 * d + 8) + ")", "", k, children);
  }

  /**
   * The lines of a nested entry, split as RunNested takes them. This restates
   * DumpEntry's array case so that RunNestedLines need not unfold it, which keeps that proof cheap.
   */
  lemma NestedLines(e: Entry, d: nat)
    requires e.value.Map?
    ensures DumpEntry(e, d) == [KeyLine(d, e.key, ArraySentinel), Pad(8 * d + 8) + "("] +
      (DumpEntries(e.value.entries, d + 1) + [Pad(8 * d + 8) + ")", ""])
  {
  }

  /** RunNestedEntry for any lines that classify as print_r's do. */
  lemma RunNested(s: State, lines: seq<string>, first: string, open: string, body: seq<string>, close: string, blank: string,
                  k: string, children: seq<Entry>)
    requires lines == [first, open] + (body + [close, blank])
    requires Valid(s) && k !in Keys(Sub(s.root, s.current))
    requires Classify(first) == KeyValue(k, ArraySentinel)
    requires Trim(open, DefaultTrim) == "(" && Trim(close, DefaultTrim) == ")" && Trim(blank, DefaultTrim) == ""
    requires var s1 := State(Replace(s.root, s.current, Sub(s.root, s.current) + [Entry(k, Map([]))]), s.current + [k], s.stack + [s.current]);
      Valid(s1) && Run(s1, body) == State(Replace(s1.root, s1.current, children), s1.current, s1.stack)
    ensures Run(s, lines) ==
      State(Replace(s.root, s.current, Sub(s.root, s.current) + [Entry(k, Map(children))]), s.current, s.stack)
  {
    var p := s.current;
    var here := Sub(s.root, p);
    var s1 := State(Replace(s.root, p, here + [Entry(k, Map([]))]), p + [k], s.stack + [p]);
    StepNewArray(s, first, k);
    BlankOrOpenIsNoOp(s1, open);
    RunTwo(s, first, open);
    var s2 := State(Replace(s1.root, p + [k], children), p + [k], s.stack + [p]);
    CloseLine(s2, close);
    assert (s.stack + [p])[|s.stack|] == p && (s.stack + [p])[..|s.stack|] == s.stack;
    var s3 := State(s2.root, s2.stack[|s.stack|], s2.stack[..|s.stack|]);
    BlankOrOpenIsNoOp(s3, blank);
    RunTwo(s2, close, blank);
    ReplaceNewChild(s.root, p, k, children);
    RunThrough(s1, body, [close, blank], s2, s3);
    RunThrough(s, [first, open], body + [close, blank], s1, s3);
  }

  lemma PaddedMarker(n: nat, marker: string)
    requires marker == "(" || marker == ")"
    ensures Trim(Pad(n) + marker, DefaultTrim) == marker
  {
    assert Pad(n) + marker == Pad(n) + marker + "";
    TrimPadded(Pad(n), marker, "", DefaultTrim);
  }

  /** Converting print_r's text of a readable array gives that array, with the builder back at the top. */
  lemma DumpRoundTrip(root: seq<Entry>)
    requires ReadableEntries(root)
    ensures Run(Init, Dump(root)) == State(root, [], [])
  {
    InitValid();
    DumpFromEmpty(Init, root);
  }

  /** DumpRoundTrip from any state that is still empty and at the top. */
  lemma DumpFromEmpty(s: State, root: seq<Entry>)
    requires Valid(s) && s.root == [] && s.current == [] && s.stack == []
    requires ReadableEntries(root)
    ensures Run(s, Dump(root)) == State(root, [], [])
  {
    HeaderIgnored(s, ArraySentinel, "(");
    TopEntries(s, root);
    CloseTrimmed(")");
    RunFramed(s, Dump(root), [ArraySentinel, "("], DumpEntries(root, 0), ")", State(root, [], []));
  }

  /** The entries of the outermost array, run from the initial state, build exactly that array. */
  lemma TopEntries(s: State, root: seq<Entry>)
    requires Valid(s) && s.root == [] && s.current == [] && s.stack == []
    requires ReadableEntries(root)
    ensures Valid(State(root, [], [])) && Run(s, DumpEntries(root, 0)) == State(root, [], [])
  {
    RunDumpEntries(s, root, 0);
    assert [] + root == root;
  }

  /** The header "Array" and "(" leave any builder state as it was; the two lines are parameters equal to the literals, which keeps the proof cheap. */
  lemma HeaderIgnored(s: State, first: string, open: string)
    requires Valid(s) && first == ArraySentinel && open == "("
    ensures Run(s, [first, open]) == s
  {
    ArrayLineIgnored(first);
    RunTwo(s, first, open);
    BlankOrOpenIsNoOp(s, open);
  }

  /** A bare ")" trims to itself; the string arrives as a parameter equal to the literal, which keeps the proof cheap. */
  lemma CloseTrimmed(close: string)
    requires close == ")"
    ensures Trim(close, DefaultTrim) == ")"
  {
    assert close[0] == ')';
    TrimNothing(close, DefaultTrim);
  }

  /** Lines framed by a header that does nothing and a ")" at the top level run as their body does. */
  lemma RunFramed(s: State, lines: seq<string>, head: seq<string>, body: seq<string>, close: string, fin: State)
    requires lines == head + (body + [close])
    requires Valid(s) && Run(s, head) == s && Run(s, body) == fin
    requires fin.stack == [] && Trim(close, DefaultTrim) == ")"
    ensures Run(s, lines) == fin
  {
    CloseLine(fin, close);
    RunOne(fin, close);
    RunThrough(s, body, [close], fin, fin);
    RunThrough(s, head, body + [close], s, fin);
  }

  /** The first line, "Array", is neither a marker nor an entry; the string arrives as a parameter equal to the literal, which keeps the proof cheap. */
  lemma ArrayLineIgnored(line: string)
    requires line == ArraySentinel
    ensures Classify(line) == Ignored
  {
    assert |line| == 5 && line[0] == 'A' && line[4] == 'y';
    TrimNothing(line, DefaultTrim);
    forall i | 0 <= i < |line| ensures line[i] != '=' {
      assert line[i] in {'A', 'r', 'a', 'y'};
    }
  }
}
