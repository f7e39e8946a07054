/**
  The custom-label annotation parser of the exporter (`readAnnotations` in
  cmd/k8s-pvc-usage/metrics.go). The annotations file is read line by line;
  a line `<prefix><key>=<value>` contributes the label `key` with the value
  `value`. Opening the file and splitting it into lines are not modelled: the
  file is given as its lines, or as unreadable.
 */
module Annotations {
  import opened GoStrings

  /** The default annotation prefix of the exporter's configuration. */
  const DefaultPrefix: string := "k8s-pvc-usage/"

  /** The default prefix can be used by the parser. */
  lemma DefaultPrefixValid()
    ensures ValidPrefix(DefaultPrefix)
  {
  }

  /** The annotations file: unreadable, or its lines in order. */
  datatype AnnotationFile = Unreadable | Readable(lines: seq<string>)

  /** One custom label taken from the file. */
  datatype Annotation = Annotation(key: string, value: string)

  /**
    A prefix the parser can work with: without `=`, so an accepted line still
    holds `=` once its prefix is stripped.
   */
  predicate ValidPrefix(prefix: string)
  {
    '=' !in prefix
  }

  /** A line the parser keeps: it starts with the prefix and contains `=`. */
  predicate Accepts(prefix: string, line: string)
  {
    HasPrefix(line, prefix) && '=' in line
  }

  /** The value of a label neither starts nor ends with a double quote. */
  predicate Unquoted(v: string)
  {
    |v| > 0 ==> v[0] != '"' && v[|v| - 1] != '"'
  }

  /** A key free of `=`, and an unquoted value. */
  predicate WellFormed(a: Annotation)
  {
    '=' !in a.key && Unquoted(a.value)
  }

  /** The text of an accepted line that holds the key and the value. */
  function Body(prefix: string, line: string): string
  {
    TrimSpace(TrimPrefix(line, prefix))
  }

  /**
    The label an accepted line gives: the key is the body's text before its
    first `=`, the value the text after it with the surrounding double quotes
    removed.
   */
  function ParseLine(prefix: string, line: string): (a: Annotation)
    requires ValidPrefix(prefix) && Accepts(prefix, line)
    ensures WellFormed(a)
    ensures HasPrefix(Body(prefix, line), a.key + "=")
    ensures a.value == Trim(Body(prefix, line)[|a.key| + 1..], {'"'})
  {
    var rest := TrimPrefix(line, prefix);
    assert '=' in rest by {
      assert line == prefix + rest;
    }
    NotSpace('=');
    TrimKeeps(rest, Whitespace, '=');
    var body := TrimSpace(rest);
    assert body == Body(prefix, line);
    var bits := SplitFirst(body, '=');
    Annotation(bits.0, Trim(bits.1, {'"'}))
  }

  /** The labels a sequence of lines gives, one per accepted line, in line order. */
  function Parse(prefix: string, lines: seq<string>): (r: seq<Annotation>)
    requires ValidPrefix(prefix)
    ensures |r| <= |lines|
    ensures forall i :: 0 <= i < |r| ==> WellFormed(r[i])
  {
    if lines == [] then []
    else
      var last := lines[|lines| - 1];
      Parse(prefix, lines[..|lines| - 1]) + if Accepts(prefix, last) then [ParseLine(prefix, last)] else []
  }

  /** The labels of the annotations file: none when it cannot be read. */
  function FileAnnotations(prefix: string, file: AnnotationFile): (r: seq<Annotation>)
    requires ValidPrefix(prefix)
    ensures file.Unreadable? ==> r == []
  {
    match file
    case Unreadable => []
    case Readable(lines) => Parse(prefix, lines)
  }

  /** One more line appends its label, if it is accepted. */
  lemma ParseSnoc(prefix: string, lines: seq<string>, line: string)
    requires ValidPrefix(prefix)
    ensures Parse(prefix, lines + [line]) ==
      Parse(prefix, lines) + if Accepts(prefix, line) then [ParseLine(prefix, line)] else []
  {
    assert (lines + [line])[..|lines|] == lines;
  }

  /** The per-line work of `readAnnotations` on an accepted line: strip, trim, split, unquote. */
  method SplitLine(prefix: string, line: string) returns (key: string, value: string)
    requires ValidPrefix(prefix) && Accepts(prefix, line)
    ensures Annotation(key, value) == ParseLine(prefix, line)
  {
    var rest := TrimPrefix(line, prefix);
    assert '=' in rest by {
      assert line == prefix + rest;
    }
    NotSpace('=');
    TrimKeeps(rest, Whitespace, '=');
    var body := TrimSpace(rest);
    var bits := SplitFirst(body, '=');
    key, value := bits.0, Trim(bits.1, {'"'});
  }

  /** The keys of a list of labels, in order. */
  function KeysOf(labels: seq<Annotation>): (r: seq<string>)
    ensures |r| == |labels| && forall i :: 0 <= i < |labels| ==> r[i] == labels[i].key
  {
    if labels == [] then [] else KeysOf(labels[..|labels| - 1]) + [labels[|labels| - 1].key]
  }

  /** The values of a list of labels, in order. */
  function ValuesOf(labels: seq<Annotation>): (r: seq<string>)
    ensures |r| == |labels| && forall i :: 0 <= i < |labels| ==> r[i] == labels[i].value
  {
    if labels == [] then [] else ValuesOf(labels[..|labels| - 1]) + [labels[|labels| - 1].value]
  }

  /** One more label appends its key. */
  lemma KeysOfSnoc(labels: seq<Annotation>, a: Annotation)
    ensures KeysOf(labels + [a]) == KeysOf(labels) + [a.key]
  {
    assert (labels + [a])[..|labels|] == labels;
  }

  /** One more label appends its value. */
  lemma ValuesOfSnoc(labels: seq<Annotation>, a: Annotation)
    ensures ValuesOf(labels + [a]) == ValuesOf(labels) + [a.value]
  {
    assert (labels + [a])[..|labels|] == labels;
  }

  /**
    `readAnnotations`: the keys and the values of the file's labels, as two
    parallel lists.
   */
  method ReadAnnotations(prefix: string, file: AnnotationFile) returns (keys: seq<string>, values: seq<string>)
    requires ValidPrefix(prefix)
    ensures keys == KeysOf(FileAnnotations(prefix, file))
    ensures values == ValuesOf(FileAnnotations(prefix, file))
  {
    keys, values := [], [];
    if file.Unreadable? {
      return;
    }
    var lines := file.lines;
    for n := 0 to |lines|
      invariant keys == KeysOf(Parse(prefix, lines[..n]))
      invariant values == ValuesOf(Parse(prefix, lines[..n]))
    {
      var line := lines[n];
      ghost var done := Parse(prefix, lines[..n]);
      assert lines[..n + 1] == lines[..n] + [line];
      ParseSnoc(prefix, lines[..n], line);
      if !HasPrefix(line, prefix) || '=' !in line {
        continue;
      }
      var key, value := SplitLine(prefix, line);
      KeysOfSnoc(done, ParseLine(prefix, line));
      ValuesOfSnoc(done, ParseLine(prefix, line));
      keys := keys + [key];
      values := values + [value];
    }
    assert lines[..|lines|] == lines;
  }

  /** The positions of the accepted lines, in increasing order. */
  function AcceptedIndices(prefix: string, lines: seq<string>): seq<nat>
  {
    if lines == [] then []
    else AcceptedIndices(prefix, lines[..|lines| - 1]) + if Accepts(prefix, lines[|lines| - 1]) then [|lines| - 1] else []
  }

  /**
    The positions of the accepted lines increase, and they are exactly the
    lines that start with the prefix and contain `=`.
   */
  lemma {:induction false} AcceptedIndicesExact(prefix: string, lines: seq<string>)
    ensures var idx := AcceptedIndices(prefix, lines);
      && (forall k :: 0 <= k < |idx| ==> idx[k] < |lines|)
      && (forall k, l :: 0 <= k < l < |idx| ==> idx[k] < idx[l])
      && (forall j :: 0 <= j < |lines| ==> (Accepts(prefix, lines[j]) <==> j in idx))
  {
    if lines != [] {
      var n := |lines| - 1;
      var init := lines[..n];
      AcceptedIndicesExact(prefix, init);
      assert forall j :: 0 <= j < n ==> init[j] == lines[j];
    }
  }

  /**
    The labels come from the accepted lines, one each and in order: the k-th
    label is parsed from the k-th accepted line.
   */
  lemma {:induction false} ParseExact(prefix: string, lines: seq<string>)
    requires ValidPrefix(prefix)
    ensures var out, idx := Parse(prefix, lines), AcceptedIndices(prefix, lines);
      && |idx| == |out|
      && (forall k :: 0 <= k < |idx| ==>
            idx[k] < |lines| && Accepts(prefix, lines[idx[k]]) && out[k] == ParseLine(prefix, lines[idx[k]]))
  {
    if lines != [] {
      var n := |lines| - 1;
      var init := lines[..n];
      ParseExact(prefix, init);
      var out0, idx0 := Parse(prefix, init), AcceptedIndices(prefix, init);
      var out, idx := Parse(prefix, lines), AcceptedIndices(prefix, lines);
      assert forall j :: 0 <= j < n ==> init[j] == lines[j];
      if Accepts(prefix, lines[n]) {
        assert out == out0 + [ParseLine(prefix, lines[n])] && idx == idx0 + [n];
      } else {
        assert out == out0 && idx == idx0;
      }
    }
  }

  /** Parsing two runs of lines one after the other concatenates their labels. */
  lemma {:induction false} ParseConcat(prefix: string, a: seq<string>, b: seq<string>)
    requires ValidPrefix(prefix)
    ensures Parse(prefix, a + b) == Parse(prefix, a) + Parse(prefix, b)
  {
    if b == [] {
      assert a + b == a;
    } else {
      var init := b[..|b| - 1];
      assert (a + b)[..|a + b| - 1] == a + init;
      assert (a + b)[|a + b| - 1] == b[|b| - 1];
      ParseConcat(prefix, a, init);
    }
  }

  /** A line that is not accepted contributes nothing, wherever it stands. */
  lemma RejectedLineIgnored(prefix: string, a: seq<string>, line: string, b: seq<string>)
    requires ValidPrefix(prefix) && !Accepts(prefix, line)
    ensures Parse(prefix, a + [line] + b) == Parse(prefix, a + b)
  {
    ParseConcat(prefix, a + [line], b);
    ParseConcat(prefix, a, b);
    assert (a + [line])[..|a|] == a;
  }
}
