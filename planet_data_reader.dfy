/**
 * `PlanetDataReader.breakCSV`: splitting one line of the planet catalogue into
 * fields at commas, where a field may instead be wrapped in double quotes (and
 * then may hold commas). There is no escaping of quotes inside quotes.
 */
module PlanetDataReader {
  import opened Wrappers

  /** The `UnsupportedOperationException` "cannot handle this line". */
  datatype CsvError = CannotHandleLine(line: string)

  /**
   * What one pass of the loop of `breakCSV` finds at its cursor: the next
   * field and where the cursor moves to, or a quote it cannot handle.
   */
  datatype Cut = Cut(field: string, next: nat) | Stray

  /** `String.indexOf(c, from)`: a position at or after `from` that holds `c`, or -1. */
  function IndexOf(s: string, c: char, from: nat): (r: int)
    ensures r == -1 || (from <= r < |s| && s[r] == c)
    decreases |s| - from
  {
    if from >= |s| then -1
    else if s[from] == c then from
    else IndexOf(s, c, from + 1)
  }

  /** No position from `from` up to the result holds `c`: the result is the first occurrence. */
  lemma {:induction false} IndexOfFirst(s: string, c: char, from: nat)
    ensures forall j :: from <= j < |s| && (IndexOf(s, c, from) == -1 || j < IndexOf(s, c, from)) ==> s[j] != c
    decreases |s| - from
  {
    if from < |s| && s[from] != c {
      IndexOfFirst(s, c, from + 1);
    }
  }

  /** The first occurrence of `c` at or after `from` (or -1 when there is none) is what `IndexOf` returns. */
  lemma IndexOfIs(s: string, c: char, from: nat, r: int)
    requires r == -1 || (from <= r < |s| && s[r] == c)
    requires forall j :: from <= j < |s| && (r == -1 || j < r) ==> s[j] != c
    ensures IndexOf(s, c, from) == r
  {
    IndexOfFirst(s, c, from);
  }

  function Prepend(fields: seq<string>, rest: Result<seq<string>, CsvError>): Result<seq<string>, CsvError>
  {
    match rest
    case Success(more) => Success(fields + more)
    case Failure(e) => Failure(e)
  }

  /**
   * One pass of the loop of `breakCSV` at cursor `i`. An unquoted field ends
   * at the next comma when that comes before any quote and lies at position
   * `commaFloor` or later (`breakCSV` tests `comma > 0`, that is
   * `commaFloor == 1`). A field that opens with a quote runs to the next
   * quote, and one comma after that is skipped. A quote anywhere else, or one
   * never closed, cannot be handled. Otherwise the rest of the line is the
   * last field.
   */
  function NextCut(s: string, i: nat, commaFloor: nat): (c: Cut)
    requires i < |s|
    ensures c.Cut? ==> i < c.next <= |s|
  {
    var comma := IndexOf(s, ',', i);
    var quote := IndexOf(s, '"', i);
    if comma >= commaFloor && (comma < quote || quote == -1) then Cut(s[i..comma], comma + 1)
    else if quote > -1 then
      if quote != i then Stray
      else
        var close := IndexOf(s, '"', quote + 1);
        if close == -1 then Stray
        else Cut(s[i + 1..close], if close + 1 < |s| && s[close + 1] == ',' then close + 2 else close + 1)
    else Cut(s[i..], |s|)
  }

  /** The fields of `s` from cursor `i` on, one pass of the loop per field. */
  function FieldsFrom(s: string, i: nat, commaFloor: nat): (r: Result<seq<string>, CsvError>)
    requires i <= |s|
    ensures i < |s| && r.Success? ==> |r.value| > 0
    decreases |s| - i
  {
    if i == |s| then Success([])
    else match NextCut(s, i, commaFloor)
      case Stray => Failure(CannotHandleLine(s))
      case Cut(field, next) => Prepend([field], FieldsFrom(s, next, commaFloor))
  }

  /** The fields of a line as `breakCSV` computes them. */
  function Fields(s: string): (r: Result<seq<string>, CsvError>)
    ensures s == [] ==> r == Success([])
    ensures s != [] && r.Success? ==> |r.value| > 0
  {
    FieldsFrom(s, 0, 1)
  }

  /** The fields of a line with the evidently intended test `comma >= 0`. */
  function IntendedFields(s: string): (r: Result<seq<string>, CsvError>)
    ensures s == [] ==> r == Success([])
    ensures s != [] && r.Success? ==> |r.value| > 0
  {
    FieldsFrom(s, 0, 0)
  }

  /**
   * A pass that finds a field adds it in front of the fields after it. This
   * and the lemmas like it below only unfold a definition once, as a hint for
   * the proofs that call them.
   */
  lemma CutStep(s: string, i: nat, commaFloor: nat, field: string, next: nat)
    requires i < |s| && NextCut(s, i, commaFloor) == Cut(field, next)
    ensures next <= |s| && FieldsFrom(s, i, commaFloor) == Prepend([field], FieldsFrom(s, next, commaFloor))
  {
  }

  /** A pass that finds a quote it cannot handle fails the whole line (an unfolding hint). */
  lemma StrayStep(s: string, i: nat, commaFloor: nat)
    requires i < |s| && NextCut(s, i, commaFloor) == Stray
    ensures FieldsFrom(s, i, commaFloor) == Failure(CannotHandleLine(s))
  {
  }

  lemma PrependAssoc(a: seq<string>, b: seq<string>, rest: Result<seq<string>, CsvError>)
    ensures Prepend(a, Prepend(b, rest)) == Prepend(a + b, rest)
    ensures Prepend([], rest) == rest
  {
    if rest.Success? {
      assert a + (b + rest.value) == a + b + rest.value;
      assert [] + rest.value == rest.value;
    }
  }

  /**
   * `breakCSV`: the cursor `i` moves past each field it appends, so the loop
   * ends; the result is the list of fields, or the error for a stray or
   * unmatched quote.
   */
  method BreakCSV(s: string) returns (r: Result<seq<string>, CsvError>)
    ensures r == Fields(s)
  {
    var contents: seq<string> := [];
    var i := 0;
    PrependAssoc([], [], FieldsFrom(s, 0, 1));
    while i < |s|
      invariant 0 <= i <= |s|
      invariant Fields(s) == Prepend(contents, FieldsFrom(s, i, 1))
      decreases |s| - i
    {
      ghost var start := i;
      var comma := IndexOf(s, ',', i);
      var quote := IndexOf(s, '"', i);
      if comma > 0 && (comma < quote || quote == -1) {
        CutStep(s, start, 1, s[i..comma], comma + 1);
        PrependAssoc(contents, [s[i..comma]], FieldsFrom(s, comma + 1, 1));
        contents := contents + [s[i..comma]];
        i := comma + 1;
      } else if quote > -1 {
        if quote != i {
          StrayStep(s, start, 1);
          return Failure(CannotHandleLine(s));
        }
        quote := IndexOf(s, '"', quote + 1);
        if quote == -1 {
          StrayStep(s, start, 1);
          return Failure(CannotHandleLine(s));
        }
        var field := s[i + 1..quote];
        i := quote + 1;
        if i < |s| && s[i] == ',' {
          i := i + 1;
        }
        CutStep(s, start, 1, field, i);
        PrependAssoc(contents, [field], FieldsFrom(s, i, 1));
        contents := contents + [field];
      } else {
        CutStep(s, start, 1, s[i..], |s|);
        PrependAssoc(contents, [s[i..]], FieldsFrom(s, |s|, 1));
        contents := contents + [s[i..]];
        i := |s|;
      }
    }
    assert contents + [] == contents;
    return Success(contents);
  }

  /** The fields joined back together with commas between them. */
  function Join(fs: seq<string>): string
  {
    if |fs| == 0 then []
    else if |fs| == 1 then fs[0]
    else fs[0] + [','] + Join(fs[1..])
  }

  /** Each field wrapped in double quotes, joined with commas. */
  function JoinQuoted(fs: seq<string>): string
  {
    if |fs| == 0 then []
    else if |fs| == 1 then ['"'] + fs[0] + ['"']
    else ['"'] + fs[0] + ['"'] + [','] + JoinQuoted(fs[1..])
  }

  predicate QuoteFree(s: string)
  {
    forall j :: 0 <= j < |s| ==> s[j] != '"'
  }

  predicate CommaFree(s: string)
  {
    forall j :: 0 <= j < |s| ==> s[j] != ','
  }

  /** A comma-joined run of fields: the first one, then a comma and the rest when there are more (an unfolding hint). */
  lemma JoinCons(fs: seq<string>)
    requires |fs| > 0
    ensures Join(fs) == if |fs| == 1 then fs[0] else fs[0] + [','] + Join(fs[1..])
  {
  }

  /** A run of quoted fields: the first one quoted, then a comma and the rest when there are more (an unfolding hint). */
  lemma JoinQuotedCons(fs: seq<string>)
    requires |fs| > 0
    ensures JoinQuoted(fs) == ['"'] + fs[0] + ['"'] + (if |fs| == 1 then [] else [','] + JoinQuoted(fs[1..]))
  {
  }

  lemma {:induction false} JoinQuoteFree(fs: seq<string>)
    requires forall k :: 0 <= k < |fs| ==> QuoteFree(fs[k])
    ensures QuoteFree(Join(fs))
  {
    if |fs| > 1 {
      JoinQuoteFree(fs[1..]);
      var rest := Join(fs[1..]);
      assert Join(fs) == fs[0] + [','] + rest;
      forall j | 0 <= j < |Join(fs)| ensures Join(fs)[j] != '"' {
        if j < |fs[0]| {
          assert Join(fs)[j] == fs[0][j];
        } else if j > |fs[0]| {
          assert Join(fs)[j] == rest[j - |fs[0]| - 1];
        }
      }
    }
  }

  /** An unquoted field `f` that a comma ends, read at `i`. */
  lemma UnquotedCut(s: string, i: nat, f: string, rest: string, commaFloor: nat)
    requires i <= |s| && s[i..] == f + [','] + rest && i + |f| >= commaFloor
    requires QuoteFree(f) && CommaFree(f) && QuoteFree(rest)
    ensures i < |s| && NextCut(s, i, commaFloor) == Cut(f, i + |f| + 1)
    ensures s[i + |f| + 1..] == rest
  {
    forall j | i <= j < |s| ensures s[j] == (f + [','] + rest)[j - i] {
    }
    IndexOfIs(s, '"', i, -1);
    IndexOfIs(s, ',', i, i + |f|);
    assert s[i..i + |f|] == f;
    assert s[i + |f| + 1..] == rest;
  }

  /** A last field with neither comma nor quote, read at `i`. */
  lemma LastCut(s: string, i: nat, commaFloor: nat)
    requires i < |s| && QuoteFree(s[i..]) && CommaFree(s[i..])
    ensures NextCut(s, i, commaFloor) == Cut(s[i..], |s|)
  {
    forall j | i <= j < |s| ensures s[j] == s[i..][j - i] {
    }
    IndexOfIs(s, '"', i, -1);
    IndexOfIs(s, ',', i, -1);
  }

  /** A quoted field `f` read at `i`; one comma after its closing quote is skipped. */
  lemma QuotedCut(s: string, i: nat, f: string, rest: string, commaFloor: nat)
    requires i <= |s| && s[i..] == ['"'] + f + ['"'] + rest && QuoteFree(f)
    ensures i < |s| && s[i + |f| + 2..] == rest
    ensures NextCut(s, i, commaFloor) == Cut(f, if rest != [] && rest[0] == ',' then i + |f| + 3 else i + |f| + 2)
  {
    var close := i + 1 + |f|;
    forall j | i <= j < |s| ensures s[j] == (['"'] + f + ['"'] + rest)[j - i] {
    }
    IndexOfIs(s, '"', i, i);
    IndexOfIs(s, '"', i + 1, close);
    assert s[i + 1..close] == f;
    assert s[close + 1..] == rest;
  }

  /** The last field of a quote-free line holds no comma. */
  lemma QuoteFreeLast(s: string, i: nat, commaFloor: nat)
    requires i < |s| && QuoteFree(s) && IndexOf(s, ',', i) == -1
    ensures FieldsFrom(s, i, commaFloor) == Success([s[i..]]) && CommaFree(s[i..])
  {
    IndexOfIs(s, '"', i, -1);
    IndexOfFirst(s, ',', i);
    var f := s[i..];
    assert forall j :: 0 <= j < |f| ==> f[j] == s[i + j];
    assert NextCut(s, i, commaFloor) == Cut(f, |s|);
    CutStep(s, i, commaFloor, f, |s|);
    assert [f] + [] == [f];
  }

  /** A field of a quote-free line that a comma ends holds no comma. */
  lemma QuoteFreeStep(s: string, i: nat, commaFloor: nat, comma: int, next: nat, rest: seq<string>)
    requires i < |s| && QuoteFree(s) && comma == IndexOf(s, ',', i) && comma != -1 && comma >= commaFloor
    requires next == comma + 1 <= |s| && FieldsFrom(s, next, commaFloor) == Success(rest)
    requires forall f :: f in rest ==> CommaFree(f)
    ensures FieldsFrom(s, i, commaFloor) == Success([s[i..comma]] + rest)
    ensures forall f :: f in [s[i..comma]] + rest ==> CommaFree(f)
  {
    IndexOfIs(s, '"', i, -1);
    IndexOfFirst(s, ',', i);
    var f := s[i..comma];
    assert forall j :: 0 <= j < |f| ==> f[j] == s[i + j];
    assert NextCut(s, i, commaFloor) == Cut(f, next);
    CutStep(s, i, commaFloor, f, next);
  }

  /**
   * A line without quotes always splits, into fields without commas, except
   * that as written a line opening with a comma comes back as one field.
   */
  lemma {:induction false} QuoteFreeFields(s: string, i: nat, commaFloor: nat)
    requires i <= |s| && QuoteFree(s) && commaFloor <= 1
    requires commaFloor == 0 || i > 0 || s == [] || s[0] != ','
    ensures FieldsFrom(s, i, commaFloor).Success?
    ensures forall f :: f in FieldsFrom(s, i, commaFloor).value ==> CommaFree(f)
    decreases |s| - i
  {
    if i < |s| {
      var comma := IndexOf(s, ',', i);
      if comma != -1 {
        var next := comma + 1;
        QuoteFreeFields(s, next, commaFloor);
        var rest := FieldsFrom(s, next, commaFloor).value;
        QuoteFreeStep(s, i, commaFloor, comma, next, rest);
      } else {
        QuoteFreeLast(s, i, commaFloor);
      }
    }
  }

  /** As written, a quote-free line that opens with a comma is returned whole, as one field. */
  lemma LeadingCommaSwallowsLine(s: string)
    requires QuoteFree(s) && |s| > 0 && s[0] == ','
    ensures Fields(s) == Success([s])
  {
    IndexOfIs(s, ',', 0, 0);
    IndexOfIs(s, '"', 0, -1);
    assert NextCut(s, 0, 1) == Cut(s[0..], |s|);
    CutStep(s, 0, 1, s[0..], |s|);
    assert s[0..] == s;
    assert [s] + [] == [s];
  }

  /** The last field of a quote-free line is the rest of the line. */
  lemma JoinFieldsLast(s: string, i: nat, commaFloor: nat)
    requires i < |s| && QuoteFree(s)
    requires !(IndexOf(s, ',', i) >= commaFloor && IndexOf(s, ',', i) != -1)
    ensures FieldsFrom(s, i, commaFloor) == Success([s[i..]])
  {
    IndexOfIs(s, '"', i, -1);
    assert NextCut(s, i, commaFloor) == Cut(s[i..], |s|);
    CutStep(s, i, commaFloor, s[i..], |s|);
    assert [s[i..]] + [] == [s[i..]];
  }

  /** A field that a comma ends, put back in front of the rest of the line. */
  lemma JoinFieldsStep(s: string, i: nat, commaFloor: nat, comma: int, next: nat, rest: seq<string>)
    requires i < |s| && QuoteFree(s) && comma == IndexOf(s, ',', i) && comma != -1 && comma >= commaFloor
    requires next == comma + 1 < |s| && FieldsFrom(s, next, commaFloor) == Success(rest)
    requires Join(rest) == s[next..]
    ensures FieldsFrom(s, i, commaFloor) == Success([s[i..comma]] + rest)
    ensures Join([s[i..comma]] + rest) == s[i..]
  {
    var f := s[i..comma];
    IndexOfIs(s, '"', i, -1);
    assert NextCut(s, i, commaFloor) == Cut(f, next);
    CutStep(s, i, commaFloor, f, next);
    JoinCons([f] + rest);
    assert ([f] + rest)[1..] == rest;
    SplitAt(s, i, comma);
  }

  /** A line from `i` on is what precedes position `k`, the character there and what follows it (a hint on slices). */
  lemma SplitAt(s: string, i: nat, k: nat)
    requires i <= k < |s|
    ensures s[i..] == s[i..k] + [s[k]] + s[k + 1..]
  {
  }

  /** Joining the fields of a quote-free line with commas gives back the line, unless it ends in a comma. */
  lemma {:induction false} JoinFields(s: string, i: nat, commaFloor: nat)
    requires i <= |s| && QuoteFree(s) && (s == [] || s[|s| - 1] != ',')
    ensures FieldsFrom(s, i, commaFloor).Success?
    ensures Join(FieldsFrom(s, i, commaFloor).value) == s[i..]
    decreases |s| - i
  {
    if i < |s| {
      var comma := IndexOf(s, ',', i);
      if comma >= commaFloor && comma != -1 {
        var next := comma + 1;
        assert next < |s|;
        JoinFields(s, next, commaFloor);
        var rest := FieldsFrom(s, next, commaFloor).value;
        JoinFieldsStep(s, i, commaFloor, comma, next, rest);
      } else {
        JoinFieldsLast(s, i, commaFloor);
      }
    }
  }

  /** A quote-free line that does not end in a comma is rebuilt by joining its fields with commas. */
  lemma BreakThenJoin(s: string)
    requires QuoteFree(s) && (s == [] || s[|s| - 1] != ',')
    ensures Fields(s).Success? && Join(Fields(s).value) == s
  {
    JoinFields(s, 0, 1);
    assert s[0..] == s;
  }

  /** What follows a prefix and a comma. */
  lemma AfterPrefix(s: string, i: nat, pre: string, rest: string)
    requires i <= |s| && s[i..] == pre + rest
    ensures i + |pre| <= |s| && s[i + |pre|..] == rest
  {
    assert s[i + |pre|..] == s[i..][|pre|..];
  }

  /** The last of a run of comma-joined fields. */
  lemma FieldsOfJoinLast(s: string, i: nat, f: string, commaFloor: nat)
    requires i <= |s| && s[i..] == f && f != [] && QuoteFree(f) && CommaFree(f)
    ensures FieldsFrom(s, i, commaFloor) == Success([f])
  {
    LastCut(s, i, commaFloor);
    CutStep(s, i, commaFloor, f, |s|);
    assert [f] + [] == [f];
  }

  /** A field of a comma-joined run, in front of the fields after it. */
  lemma FieldsOfJoinStep(s: string, i: nat, f: string, rest: string, next: nat, tail: seq<string>, commaFloor: nat)
    requires i <= |s| && s[i..] == f + [','] + rest && i + |f| >= commaFloor
    requires QuoteFree(f) && CommaFree(f) && QuoteFree(rest)
    requires next == i + |f| + 1 <= |s| && FieldsFrom(s, next, commaFloor) == Success(tail)
    ensures FieldsFrom(s, i, commaFloor) == Success([f] + tail)
  {
    UnquotedCut(s, i, f, rest, commaFloor);
    CutStep(s, i, commaFloor, f, next);
  }

  /** Splitting resumed where a comma-joined run of fields starts gives those fields back. */
  lemma {:induction false} FieldsOfJoin(s: string, i: nat, fs: seq<string>, commaFloor: nat)
    requires i <= |s| && s[i..] == Join(fs)
    requires |fs| > 0 && fs[|fs| - 1] != []
    requires forall k :: 0 <= k < |fs| ==> QuoteFree(fs[k]) && CommaFree(fs[k])
    requires commaFloor <= 1 && i + |fs[0]| >= commaFloor
    ensures FieldsFrom(s, i, commaFloor) == Success(fs)
    decreases |fs|
  {
    var f := fs[0];
    JoinCons(fs);
    if |fs| == 1 {
      FieldsOfJoinLast(s, i, f, commaFloor);
      assert [f] == fs;
    } else {
      var rest := Join(fs[1..]);
      JoinQuoteFree(fs[1..]);
      AfterPrefix(s, i, f + [','], rest);
      var next := i + |f| + 1;
      var tail := fs[1..];
      FieldsOfJoin(s, next, tail, commaFloor);
      FieldsOfJoinStep(s, i, f, rest, next, tail, commaFloor);
      assert [f] + fs[1..] == fs;
    }
  }

  /**
   * Splitting fields joined with commas gives them back when no field holds a
   * comma or quote, the last field is not empty and, as written, neither is the first.
   */
  lemma SplitJoin(fs: seq<string>)
    requires |fs| > 0 && fs[0] != [] && fs[|fs| - 1] != []
    requires forall k :: 0 <= k < |fs| ==> QuoteFree(fs[k]) && CommaFree(fs[k])
    ensures Fields(Join(fs)) == Success(fs)
  {
    FieldsOfJoin(Join(fs), 0, fs, 1);
  }

  /** With the intended comma test an empty first field is kept too. */
  lemma IntendedSplitJoin(fs: seq<string>)
    requires |fs| > 0 && fs[|fs| - 1] != []
    requires forall k :: 0 <= k < |fs| ==> QuoteFree(fs[k]) && CommaFree(fs[k])
    ensures IntendedFields(Join(fs)) == Success(fs)
  {
    FieldsOfJoin(Join(fs), 0, fs, 0);
  }

  /** The line ",a" has an empty first field that `breakCSV` as written loses. */
  lemma LeadingEmptyFieldLost()
    ensures Join(["", "a"]) == ",a"
    ensures Fields(",a") == Success([",a"])
    ensures IntendedFields(",a") == Success(["", "a"])
  {
    assert Join(["", "a"]) == [] + [','] + "a";
    LeadingCommaSwallowsLine(",a");
    IntendedSplitJoin(["", "a"]);
  }

  /** The last of a run of quoted fields. */
  lemma QuotedLast(s: string, i: nat, f: string, commaFloor: nat)
    requires i <= |s| && s[i..] == ['"'] + f + ['"'] && QuoteFree(f)
    ensures FieldsFrom(s, i, commaFloor) == Success([f])
  {
    assert s[i..] == ['"'] + f + ['"'] + [];
    QuotedCut(s, i, f, [], commaFloor);
    CutStep(s, i, commaFloor, f, i + |f| + 2);
    assert [f] + [] == [f];
  }

  /** A quoted field of a run, in front of the fields after it. */
  lemma QuotedStep(s: string, i: nat, f: string, more: string, next: nat, commaFloor: nat)
    requires i <= |s| && s[i..] == ['"'] + f + ['"'] + ([','] + more) && QuoteFree(f)
    requires next == i + |f| + 3
    ensures next <= |s| && s[next..] == more
    ensures NextCut(s, i, commaFloor) == Cut(f, next)
  {
    QuotedCut(s, i, f, [','] + more, commaFloor);
    AfterPrefix(s, i + |f| + 2, [','], more);
  }

  /** Splitting resumed where a run of quoted fields starts gives those fields back exactly, commas inside them included. */
  lemma {:induction false} FieldsOfJoinQuoted(s: string, i: nat, fs: seq<string>, commaFloor: nat)
    requires i <= |s| && s[i..] == JoinQuoted(fs)
    requires forall k :: 0 <= k < |fs| ==> QuoteFree(fs[k])
    ensures FieldsFrom(s, i, commaFloor) == Success(fs)
    decreases |fs|
  {
    if |fs| == 0 {
      assert |s[i..]| == 0;
    } else {
      var f := fs[0];
      JoinQuotedCons(fs);
      if |fs| == 1 {
        QuotedLast(s, i, f, commaFloor);
        assert [f] == fs;
      } else {
        var tail := fs[1..];
        var j := i + |f| + 3;
        QuotedStep(s, i, f, JoinQuoted(tail), j, commaFloor);
        FieldsOfJoinQuoted(s, j, tail, commaFloor);
        CutStep(s, i, commaFloor, f, j);
        assert [f] + tail == fs;
      }
    }
  }

  /** A line of quoted fields splits back into those fields. */
  lemma SplitJoinQuoted(fs: seq<string>)
    requires forall k :: 0 <= k < |fs| ==> QuoteFree(fs[k])
    ensures Fields(JoinQuoted(fs)) == Success(fs)
  {
    FieldsOfJoinQuoted(JoinQuoted(fs), 0, fs, 1);
  }

  /** A quote inside a field, not at its start, is refused. */
  lemma MisplacedQuoteFails(s: string, i: nat, j: nat, commaFloor: nat)
    requires i < j < |s| && s[j] == '"'
    requires forall k :: i <= k < j ==> s[k] != ',' && s[k] != '"'
    ensures FieldsFrom(s, i, commaFloor).Failure?
  {
    IndexOfIs(s, '"', i, j);
    assert NextCut(s, i, commaFloor) == Stray;
    StrayStep(s, i, commaFloor);
  }

  /** A field that a comma ends before the quote is passed over. */
  lemma UnclosedQuoteStep(s: string, i: nat, j: nat, commaFloor: nat, comma: int, next: nat)
    requires i <= j < |s| && IndexOf(s, '"', i) == j
    requires comma == IndexOf(s, ',', i) && comma >= commaFloor && comma < j
    requires next == comma + 1 && FieldsFrom(s, next, commaFloor).Failure?
    ensures FieldsFrom(s, i, commaFloor).Failure?
  {
    assert NextCut(s, i, commaFloor) == Cut(s[i..comma], next);
    CutStep(s, i, commaFloor, s[i..comma], next);
  }

  /** The quote is reached: it does not open the field, or nothing closes it. */
  lemma UnclosedQuoteReached(s: string, i: nat, j: nat, commaFloor: nat)
    requires i <= j < |s| && IndexOf(s, '"', i) == j
    requires !(IndexOf(s, ',', i) >= commaFloor && IndexOf(s, ',', i) < j)
    requires forall k :: j < k < |s| ==> s[k] != '"'
    ensures FieldsFrom(s, i, commaFloor).Failure?
  {
    if i == j {
      IndexOfIs(s, '"', i + 1, -1);
    }
    assert NextCut(s, i, commaFloor) == Stray;
    StrayStep(s, i, commaFloor);
  }

  /** A quote with no quote after it is refused, wherever it stands. */
  lemma {:induction false} UnclosedQuoteFails(s: string, i: nat, j: nat, commaFloor: nat)
    requires i <= j < |s| && s[j] == '"'
    requires forall k :: i <= k < |s| && k != j ==> s[k] != '"'
    ensures FieldsFrom(s, i, commaFloor).Failure?
    decreases |s| - i
  {
    var comma := IndexOf(s, ',', i);
    IndexOfIs(s, '"', i, j);
    if comma >= commaFloor && comma < j {
      var next := comma + 1;
      UnclosedQuoteFails(s, next, j, commaFloor);
      UnclosedQuoteStep(s, i, j, commaFloor, comma, next);
    } else {
      UnclosedQuoteReached(s, i, j, commaFloor);
    }
  }

  /** A field that a comma ends inside a quote-free line is the same with one more comma at the end of the line. */
  lemma TrailingCommaSameCut(s: string, i: nat, commaFloor: nat, comma: int)
    requires i < |s| && QuoteFree(s) && comma == IndexOf(s, ',', i) && comma != -1 && comma >= commaFloor
    ensures NextCut(s, i, commaFloor) == Cut(s[i..comma], comma + 1)
    ensures NextCut(s + [','], i, commaFloor) == Cut(s[i..comma], comma + 1)
  {
    var t := s + [','];
    assert forall j :: 0 <= j < |s| ==> t[j] == s[j];
    IndexOfIs(s, '"', i, -1);
    IndexOfIs(t, '"', i, -1);
    IndexOfFirst(s, ',', i);
    IndexOfIs(t, ',', i, comma);
    assert t[i..comma] == s[i..comma];
  }

  /** The last field of a quote-free line becomes a field ended by the added comma. */
  lemma TrailingCommaLastCut(s: string, i: nat, commaFloor: nat)
    requires i < |s| && QuoteFree(s) && commaFloor <= 1 && IndexOf(s, ',', i) == -1
    ensures NextCut(s, i, commaFloor) == Cut(s[i..], |s|)
    ensures NextCut(s + [','], i, commaFloor) == Cut(s[i..], |s| + 1)
  {
    var t := s + [','];
    assert forall j :: 0 <= j < |s| ==> t[j] == s[j];
    IndexOfIs(s, '"', i, -1);
    IndexOfIs(t, '"', i, -1);
    IndexOfFirst(s, ',', i);
    assert t[|s|] == ',';
    IndexOfIs(t, ',', i, |s|);
    assert t[i..|s|] == s[i..];
  }

  /** The last field of a quote-free line is the same with one more comma after it. */
  lemma TrailingCommaLast(s: string, i: nat, commaFloor: nat)
    requires i < |s| && QuoteFree(s) && commaFloor <= 1 && IndexOf(s, ',', i) == -1
    ensures FieldsFrom(s + [','], i, commaFloor) == FieldsFrom(s, i, commaFloor)
  {
    TrailingCommaLastCut(s, i, commaFloor);
    CutStep(s, i, commaFloor, s[i..], |s|);
    CutStep(s + [','], i, commaFloor, s[i..], |s| + 1);
    assert [s[i..]] + [] == [s[i..]];
  }

  /** A field ended by a comma is the same with one more comma at the end of the line, and so are the fields after it. */
  lemma TrailingCommaStep(s: string, i: nat, commaFloor: nat, comma: int, next: nat)
    requires i < |s| && QuoteFree(s) && comma == IndexOf(s, ',', i) && comma != -1 && comma >= commaFloor
    requires next == comma + 1 < |s| && FieldsFrom(s + [','], next, commaFloor) == FieldsFrom(s, next, commaFloor)
    ensures FieldsFrom(s + [','], i, commaFloor) == FieldsFrom(s, i, commaFloor)
  {
    TrailingCommaSameCut(s, i, commaFloor, comma);
    CutStep(s, i, commaFloor, s[i..comma], next);
    CutStep(s + [','], i, commaFloor, s[i..comma], next);
  }

  lemma {:induction false} TrailingCommaFrom(s: string, i: nat, commaFloor: nat)
    requires i < |s| && QuoteFree(s) && s[|s| - 1] != ',' && commaFloor <= 1
    requires commaFloor == 0 || i > 0 || s[0] != ','
    ensures FieldsFrom(s + [','], i, commaFloor) == FieldsFrom(s, i, commaFloor)
    decreases |s| - i
  {
    var comma := IndexOf(s, ',', i);
    if comma != -1 {
      var next := comma + 1;
      assert next < |s|;
      TrailingCommaFrom(s, next, commaFloor);
      TrailingCommaStep(s, i, commaFloor, comma, next);
    } else {
      TrailingCommaLast(s, i, commaFloor);
    }
  }

  /**
   * One comma at the end of a quote-free line adds no empty last field, unless
   * as written the line opens with a comma and so is one field.
   */
  lemma TrailingCommaIgnored(s: string)
    requires |s| > 0 && QuoteFree(s) && s[0] != ',' && s[|s| - 1] != ','
    ensures Fields(s + [',']) == Fields(s)
  {
    TrailingCommaFrom(s, 0, 1);
  }
}
