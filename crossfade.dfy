/** The ffmpeg command of concat_wavs_with_crossfade: one "-i" argument pair
    per input file and a filter graph that chains acrossfade filters, each
    mixing the result so far with the next input. */
module Crossfade {
  import opened Text
  import opened Decimal

  /** A stream a filter reads: input file k ("[k]") or the intermediate result
      labelled "a" + k ("[ak]"). */
  datatype Pad = Input(k: nat) | Link(k: nat)

  /** Where a filter sends its result: to label "a" + k, or, unlabelled, to
      the command's output file. */
  datatype Output = Labelled(k: nat) | Unlabelled

  datatype Filter = Filter(first: Pad, second: Pad, out: Output)

  /** What the function does: raise the error, copy the one file, or run
      ffmpeg with these arguments. */
  datatype Outcome = Failed(message: string) | CopyFile(source: string, target: string) | RunFfmpeg(argv: seq<string>)

  const NoFilesMessage := "No audio files to concatenate"

  function PadText(p: Pad): string
  {
    match p
    case Input(k) => "[" + Show(k) + "]"
    case Link(k) => "[a" + Show(k) + "]"
  }

  function OutputText(o: Output): string
  {
    match o
    case Labelled(k) => PadText(Link(k))
    case Unlabelled => ""
  }

  /** The f-string of one acrossfade filter: the two input pads and the
      filter name first, the output label last. */
  function Fade(first: string, second: string, duration: string, curve: string, out: string): (r: string)
    ensures first + second + "acrossfade=d=" <= r
    ensures EndsWith(r, out)
  {
    var head := first + second + "acrossfade=d=";
    var tail := duration + ":c1=" + curve + ":c2=" + curve;
    PrefixAppend(head, tail + out);
    assert head + tail + out == head + (tail + out);
    assert (head + tail + out)[|head + tail|..] == out;
    head + tail + out
  }

  /** The text of a filter: its pads and the filter name first, its output label last. */
  function FilterText(f: Filter, duration: string, curve: string): (r: string)
    ensures PadText(f.first) + PadText(f.second) + "acrossfade=d=" <= r
    ensures EndsWith(r, OutputText(f.out))
  {
    Fade(PadText(f.first), PadText(f.second), duration, curve, OutputText(f.out))
  }

  function Render(fs: seq<Filter>, duration: string, curve: string): (r: seq<string>)
    ensures |r| == |fs|
  {
    seq(|fs|, i requires 0 <= i < |fs| => FilterText(fs[i], duration, curve))
  }

  /** Filter i of the chain for n >= 3 inputs (lines 224-238). */
  function ChainFilter(n: nat, i: nat): (f: Filter)
    ensures f.second == Input(i + 1)
    ensures f.out == Unlabelled || f.out == Labelled(i)
    ensures n >= 3 ==> (f.out == Unlabelled <==> i == n - 2)
  {
    if i == 0 then Filter(Input(0), Input(1), Labelled(0))
    else if i == n - 2 then Filter(Link(i - 1), Input(i + 1), Unlabelled)
    else Filter(Link(i - 1), Input(i + 1), Labelled(i))
  }

  /** The filters for n >= 2 inputs: one unlabelled filter for two inputs
      (lines 215-218), the chain otherwise. */
  function Graph(n: nat): (g: seq<Filter>)
    requires n >= 2
    ensures |g| == n - 1
  {
    if n == 2 then [Filter(Input(0), Input(1), Unlabelled)]
    else seq(n - 1, i requires 0 <= i < n - 1 => ChainFilter(n, i))
  }

  /** input_args for the given paths (lines 210-212). */
  function InputArgs(paths: seq<string>): (r: seq<string>)
    ensures |r| == 2 * |paths|
  {
    if paths == [] then []
    else InputArgs(paths[..|paths| - 1]) + ["-i", paths[|paths| - 1]]
  }

  /** concat_wavs_with_crossfade up to the subprocess call (lines 200-248). */
  function Command(outputPath: string, paths: seq<string>, duration: string, curve: string): (r: Outcome)
    ensures r.Failed? <==> |paths| == 0
    ensures r.CopyFile? <==> |paths| == 1
  {
    if |paths| == 0 then Failed(NoFilesMessage)
    else if |paths| == 1 then CopyFile(paths[0], outputPath)
    else
      RunFfmpeg(["ffmpeg", "-y"] + InputArgs(paths) +
        ["-filter_complex", FilterComplex(|paths|, duration, curve), outputPath])
  }

  /** The filter_complex argument: the filters joined by ";". */
  function FilterComplex(n: nat, duration: string, curve: string): (r: string)
    requires n >= 2
    ensures "[0][1]acrossfade=d=" <= r
  {
    var fs := Render(Graph(n), duration, curve);
    FirstFilterText(n, duration, curve);
    Join(";", fs)
  }

  /** Every graph opens by crossfading input 0 with input 1. */
  lemma FirstFilterText(n: nat, duration: string, curve: string)
    requires n >= 2
    ensures "[0][1]acrossfade=d=" <= FilterText(Graph(n)[0], duration, curve)
  {
    var f := Graph(n)[0];
    assert f.first == Input(0) && f.second == Input(1);
    FirstFilterIs(f, duration, curve);
    FirstPrefix();
  }

  lemma FirstPrefix()
    ensures "[0]" + "[1]" + "acrossfade=d=" == "[0][1]acrossfade=d="
  {
  }

  /** The text of a filter that reads inputs 0 and 1. */
  lemma FirstFilterIs(f: Filter, duration: string, curve: string)
    requires f.first == Input(0) && f.second == Input(1)
    ensures FilterText(f, duration, curve) == Fade("[0]", "[1]", duration, curve, OutputText(f.out))
  {
    assert Show(0) == "0" && Show(1) == "1";
  }

  /** concat_wavs_with_crossfade, with the loops of the source. */
  method ConcatWithCrossfade(outputPath: string, paths: seq<string>, duration: string, curve: string)
    returns (outcome: Outcome)
    ensures outcome == Command(outputPath, paths, duration, curve)
  {
    if |paths| == 0 {
      return Failed(NoFilesMessage);
    }
    if |paths| == 1 {
      return CopyFile(paths[0], outputPath);
    }
    var inputArgs := CollectInputArgs(paths);
    var filterComplex;
    if |paths| == 2 {
      filterComplex := Fade("[0]", "[1]", duration, curve, "");
      TwoInputs(duration, curve);
    } else {
      var filters := ChainFilters(|paths|, duration, curve);
      filterComplex := Join(";", filters);
      assert filterComplex == FilterComplex(|paths|, duration, curve);
    }
    outcome := RunFfmpeg(["ffmpeg", "-y"] + inputArgs + ["-filter_complex", filterComplex, outputPath]);
  }

  /** The input_args loop (lines 210-212). */
  method CollectInputArgs(paths: seq<string>) returns (inputArgs: seq<string>)
    ensures inputArgs == InputArgs(paths)
  {
    inputArgs := [];
    for i := 0 to |paths|
      invariant inputArgs == InputArgs(paths[..i])
    {
      assert paths[..i + 1][..i] == paths[..i];
      inputArgs := inputArgs + ["-i", paths[i]];
    }
    assert paths[..|paths|] == paths;
  }

  /** The loop building the chain of filters for three or more inputs (lines
      222-238). */
  method ChainFilters(n: nat, duration: string, curve: string) returns (filters: seq<string>)
    requires n >= 3
    ensures filters == Render(Graph(n), duration, curve)
  {
    ghost var rendered := Render(Graph(n), duration, curve);
    filters := [];
    for i := 0 to n - 1
      invariant filters == rendered[..i]
    {
      ChainFilterText(n, i, duration, curve);
      // The pads and the label of the three f-strings.
      var first, second, out;
      if i == 0 {
        first, second, out := "[0]", "[1]", "[a0]";
      } else if i == n - 2 {
        first, second, out := "[a" + Show(i - 1) + "]", "[" + Show(i + 1) + "]", "";
      } else {
        first, second, out := "[a" + Show(i - 1) + "]", "[" + Show(i + 1) + "]", "[a" + Show(i) + "]";
      }
      var filter := Fade(first, second, duration, curve, out);
      assert filter == rendered[i];
      TakeOneMore(rendered, i);
      filters := filters + [filter];
    }
    assert rendered[..n - 1] == rendered;
  }

  /** The text of filter i of the chain, as the f-strings of lines 227, 232
      and 237 write it. */
  lemma ChainFilterText(n: nat, i: nat, duration: string, curve: string)
    requires n >= 3 && i < n - 1
    ensures FilterText(Graph(n)[i], duration, curve) ==
      if i == 0 then Fade("[0]", "[1]", duration, curve, "[a0]")
      else Fade("[a" + Show(i - 1) + "]", "[" + Show(i + 1) + "]", duration, curve, if i == n - 2 then "" else "[a" + Show(i) + "]")
  {
    assert Graph(n)[i] == ChainFilter(n, i);
    if i == 0 {
      assert PadText(Input(0)) == "[0]" && PadText(Input(1)) == "[1]";
      assert OutputText(Labelled(0)) == "[a0]";
    }
  }

  /** input_args holds "-i" and the path, for every path in order. */
  lemma {:induction false} InputArgsShape(paths: seq<string>)
    ensures |InputArgs(paths)| == 2 * |paths|
    ensures forall i :: 0 <= i < |paths| ==> InputArgs(paths)[2 * i] == "-i" && InputArgs(paths)[2 * i + 1] == paths[i]
  {
    if paths != [] {
      var init := paths[..|paths| - 1];
      InputArgsShape(init);
      assert forall i :: 0 <= i < |init| ==> init[i] == paths[i];
    }
  }

  /** The outcomes of the three cases: the error for no file, the copy for
      one, and for two or more the command line "ffmpeg -y", the inputs, and
      "-filter_complex" with the graph before the output path. */
  lemma CommandShape(outputPath: string, paths: seq<string>, duration: string, curve: string)
    ensures var r := Command(outputPath, paths, duration, curve);
      (|paths| == 0 <==> r.Failed?) &&
      (|paths| == 1 <==> r.CopyFile?) &&
      (|paths| == 1 ==> r == CopyFile(paths[0], outputPath)) &&
      (|paths| >= 2 ==>
        r.RunFfmpeg? && |r.argv| == 2 * |paths| + 5 &&
        r.argv[0] == "ffmpeg" && r.argv[1] == "-y" &&
        (forall i :: 0 <= i < |paths| ==> r.argv[2 + 2 * i] == "-i" && r.argv[3 + 2 * i] == paths[i]) &&
        r.argv[2 * |paths| + 2] == "-filter_complex" &&
        r.argv[2 * |paths| + 3] == FilterComplex(|paths|, duration, curve) &&
        r.argv[2 * |paths| + 4] == outputPath)
  {
    if |paths| >= 2 {
      ArgvShape(paths, FilterComplex(|paths|, duration, curve), outputPath);
    }
  }

  lemma ArgvShape(paths: seq<string>, filterComplex: string, outputPath: string)
    ensures var argv := ["ffmpeg", "-y"] + InputArgs(paths) + ["-filter_complex", filterComplex, outputPath];
      |argv| == 2 * |paths| + 5 && argv[0] == "ffmpeg" && argv[1] == "-y" &&
      (forall i :: 0 <= i < |paths| ==> argv[2 + 2 * i] == "-i" && argv[3 + 2 * i] == paths[i]) &&
      argv[2 * |paths| + 2] == "-filter_complex" && argv[2 * |paths| + 3] == filterComplex &&
      argv[2 * |paths| + 4] == outputPath
  {
    InputArgsShape(paths);
    var ia := InputArgs(paths);
    var argv := ["ffmpeg", "-y"] + ia + ["-filter_complex", filterComplex, outputPath];
    assert forall i :: 0 <= i < |paths| ==> argv[2 + 2 * i] == ia[2 * i] && argv[3 + 2 * i] == ia[2 * i + 1];
  }

  /** Two inputs give the single filter "[0][1]acrossfade=...", without label. */
  lemma TwoInputs(duration: string, curve: string)
    ensures FilterComplex(2, duration, curve) == Fade("[0]", "[1]", duration, curve, "")
  {
    assert PadText(Input(0)) == "[0]" && PadText(Input(1)) == "[1]";
    assert Render(Graph(2), duration, curve) == [FilterText(Graph(2)[0], duration, curve)];
  }

  predicate Reads(f: Filter, p: Pad)
  {
    f.first == p || f.second == p
  }

  /** Every input file is read exactly once: input 0 and input 1 by the first
      filter, input k >= 2 by filter k - 1; nothing reads a file that does not
      exist. */
  lemma InputsReadOnce(n: nat, i: nat, k: nat)
    requires n >= 2 && i < n - 1
    ensures Reads(Graph(n)[i], Input(k)) <==> k < n && i == (if k == 0 then 0 else k - 1)
  {
  }

  /** Each label is written by one filter and read by the next one: label j
      exists for j <= n - 3, filter j writes it and filter j + 1 reads it. */
  lemma LabelsWrittenOnce(n: nat, i: nat, j: nat)
    requires n >= 2 && i < n - 1
    ensures Graph(n)[i].out == Labelled(j) <==> i == j && j + 3 <= n
  {
  }

  lemma LabelsReadOnce(n: nat, i: nat, j: nat)
    requires n >= 2 && i < n - 1
    ensures Reads(Graph(n)[i], Link(j)) <==> i == j + 1 && j + 3 <= n
  {
  }

  /** Only the last filter is unlabelled, so it alone feeds the output file. */
  lemma OneUnlabelled(n: nat, i: nat)
    requires n >= 2 && i < n - 1
    ensures Graph(n)[i].out == Unlabelled <==> i == n - 2
  {
  }

  /** Different pads are written differently, so the text of the graph
      determines its label structure. */
  lemma PadTextInjective(p: Pad, q: Pad)
    requires PadText(p) == PadText(q)
    ensures p == q
  {
    match p {
      case Input(k) =>
        match q {
          case Input(m) =>
            assert Show(k) == PadText(p)[1..|PadText(p)| - 1];
            assert Show(m) == PadText(q)[1..|PadText(q)| - 1];
            ShowInjective(k, m);
          case Link(m) =>
            InputIsNotLink(k, m);
            assert false;
        }
      case Link(k) =>
        match q {
          case Input(m) =>
            InputIsNotLink(m, k);
            assert false;
          case Link(m) =>
            assert Show(k) == PadText(p)[2..|PadText(p)| - 1];
            assert Show(m) == PadText(q)[2..|PadText(q)| - 1];
            ShowInjective(k, m);
        }
    }
  }

  lemma InputIsNotLink(k: nat, m: nat)
    ensures PadText(Input(k)) != PadText(Link(m))
  {
    assert PadText(Input(k))[1] == Show(k)[0];
    assert PadText(Link(m))[1] == 'a';
  }

  /** The audio a stream carries: input file k, or the crossfade of two
      streams. */
  datatype Audio = Source(k: nat) | Crossfaded(a: Audio, b: Audio)

  /** The state of running a filter graph in order: whether every pad read so
      far was defined, the audio under each label, and the unlabelled
      results. */
  datatype Mixer = Mixer(ok: bool, labels: map<nat, Audio>, outputs: seq<Audio>)

  predicate Defined(p: Pad, labels: map<nat, Audio>)
  {
    p.Input? || p.k in labels
  }

  function Stream(p: Pad, labels: map<nat, Audio>): Audio
    requires Defined(p, labels)
  {
    if p.Input? then Source(p.k) else labels[p.k]
  }

  function Apply(m: Mixer, f: Filter): Mixer
  {
    if !m.ok || !Defined(f.first, m.labels) || !Defined(f.second, m.labels) then Mixer(false, m.labels, m.outputs)
    else
      var v := Crossfaded(Stream(f.first, m.labels), Stream(f.second, m.labels));
      match f.out
      case Labelled(j) => Mixer(true, m.labels[j := v], m.outputs)
      case Unlabelled => Mixer(true, m.labels, m.outputs + [v])
  }

  function Evaluate(fs: seq<Filter>): Mixer
  {
    if fs == [] then Mixer(true, map[], [])
    else Apply(Evaluate(fs[..|fs| - 1]), fs[|fs| - 1])
  }

  /** The inputs 0..n-1 crossfaded one after the other, left to right. */
  function InOrder(n: nat): Audio
    requires n >= 1
  {
    if n == 1 then Source(0) else Crossfaded(InOrder(n - 1), Source(n - 1))
  }

  /** The graph reads only labels written before, and its one result is the
      crossfade of all inputs in path order. */
  lemma GraphMixesInOrder(n: nat)
    requires n >= 2
    ensures Evaluate(Graph(n)).ok && Evaluate(Graph(n)).outputs == [InOrder(n)]
  {
    var g := Graph(n);
    if n == 2 {
      assert g[..0] == [];
    } else {
      ChainPrefix(n, n - 2);
      assert g[..n - 2] == g[..|g| - 1];
      assert g[n - 2] == Filter(Link(n - 3), Input(n - 1), Unlabelled);
    }
  }

  /** After the first i filters of the chain, label i - 1 holds the first
      i + 1 inputs crossfaded in order and nothing has reached the output. */
  lemma {:induction false} ChainPrefix(n: nat, i: nat)
    requires n >= 3 && 1 <= i <= n - 2
    ensures var m := Evaluate(Graph(n)[..i]);
      m.ok && m.outputs == [] && i - 1 in m.labels && m.labels[i - 1] == InOrder(i + 1)
  {
    var g := Graph(n);
    if i == 1 {
      assert g[..1][..0] == [];
      assert g[..1][0] == Filter(Input(0), Input(1), Labelled(0));
    } else {
      ChainPrefix(n, i - 1);
      assert g[..i][..i - 1] == g[..i - 1];
      assert g[..i][i - 1] == Filter(Link(i - 2), Input(i), Labelled(i - 1));
    }
  }
}
