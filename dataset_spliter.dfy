/** The dataset tool of dataset-spliter.py: `ESLRExtractor.extract` turns a
    recording (one JSON message per line) into a CSV label file and one image
    per telemetry line; `DatasetSpliterUI` walks the rows with a cursor,
    labels each one `E` or `R`, and `close` splits the rows by label. The
    recording arrives already parsed, one `json.loads` result per line, and
    the files written are returned as values. */
module DatasetSpliter {
  import opened Wrappers
  import opened PyText
  import opened Json
  import opened Foreign

  // ---------------------------------------------------------------------
  // Extraction
  // ---------------------------------------------------------------------

  /** The position of the first occurrence of x, as `lst.index(x)`. */
  function IndexOf(s: seq<string>, x: string): (i: nat)
    requires x in s
    ensures i < |s| && s[i] == x && x !in s[..i]
    decreases |s|
  {
    if s[0] == x then 0
    else
      assert x in s[1..] by {
        assert s == [s[0]] + s[1..];
      }
      var i := 1 + IndexOf(s[1..], x);
      assert s[..i] == [s[0]] + s[1..][..i - 1];
      i
  }

  /** `lst.remove(x)`: drop the first occurrence of x and keep the order of
      the rest; None where Python raises `ValueError` because x is absent. */
  function RemoveFirst(s: seq<string>, x: string): (r: Option<seq<string>>)
    ensures r.None? <==> x !in s
    ensures r.Some? ==> |r.value| == |s| - 1
    decreases |s|
  {
    if s == [] then None
    else if s[0] == x then Some(s[1..])
    else
      assert x in s <==> x in s[1..] by {
        assert s == [s[0]] + s[1..];
      }
      match RemoveFirst(s[1..], x)
      case None => None
      case Some(rest) => Some([s[0]] + rest)
  }

  /** What `remove` drops is the first occurrence, and the rest keeps its
      order. */
  lemma {:induction false} RemoveFirstAt(s: seq<string>, x: string)
    requires x in s
    ensures RemoveFirst(s, x) == Some(s[..IndexOf(s, x)] + s[IndexOf(s, x) + 1..])
    decreases |s|
  {
    if s[0] != x {
      assert x in s[1..] by {
        assert s == [s[0]] + s[1..];
      }
      RemoveFirstAt(s[1..], x);
      var j := IndexOf(s[1..], x);
      assert IndexOf(s, x) == j + 1;
      ConsAround(s, j);
    } else {
      assert s[..0] + s[1..] == s[1..];
    }
  }

  /** Cutting out element j + 1 of s is keeping s[0] and cutting out element
      j of the tail. */
  lemma ConsAround(s: seq<string>, j: nat)
    requires j + 1 < |s|
    ensures [s[0]] + (s[1..][..j] + s[1..][j + 1..]) == s[..j + 1] + s[j + 2..]
  {
    assert s[..j + 1] == [s[0]] + s[1..][..j];
    assert s[j + 2..] == s[1..][j + 1..];
  }

  /** s without any occurrence of x, in its order. */
  function Without(s: seq<string>, x: string): seq<string>
    decreases |s|
  {
    if s == [] then []
    else (if s[0] == x then [] else [s[0]]) + Without(s[1..], x)
  }

  const PathKey: string := "path"
  const ImageKey: string := "image"

  /** The CSV header taken from the first telemetry record: `path`, then the
      record's keys in order without `msg_type` and `image`. None where the
      record has no `image` key and `remove` raises. */
  function NewHeader(o: Object): Option<seq<string>> {
    match RemoveFirst(Keys(o), MsgType)
    case None => None
    case Some(ks) =>
      match RemoveFirst(ks, ImageKey)
      case None => None
      case Some(ks') => Some([PathKey] + ks')
  }

  /** For a record with a `msg_type` and distinct keys, the header exists
      exactly when the record has an image; it is `path` followed by the
      record's keys in their order, without `msg_type` and `image`. */
  lemma NewHeaderShape(o: Object)
    requires HasKey(o, MsgType) && UniqueKeys(o) && MsgType != ImageKey
    ensures NewHeader(o).Some? <==> HasKey(o, ImageKey)
    ensures NewHeader(o).Some? ==>
      var h := NewHeader(o).value;
      |h| == |o.fields| - 1 && h[0] == PathKey &&
      h[1..] == Without(Without(Keys(o), MsgType), ImageKey) &&
      forall k :: k in h[1..] <==> k in Keys(o) && k != MsgType && k != ImageKey
  {
    var ks := Keys(o);
    UniqueKeysDistinct(o);
    var a := RemoveFirst(ks, MsgType).value;
    RemoveDistinct(ks, MsgType);
    assert ImageKey in a <==> ImageKey in ks;
    if ImageKey in a {
      RemoveDistinct(a, ImageKey);
      var h := NewHeader(o).value;
      assert h[1..] == RemoveFirst(a, ImageKey).value;
    }
  }

  predicate Distinct(s: seq<string>) {
    forall i, j | 0 <= i < j < |s| :: s[i] != s[j]
  }

  lemma UniqueKeysDistinct(o: Object)
    requires UniqueKeys(o)
    ensures Distinct(Keys(o))
  {
    forall i, j | 0 <= i < j < |o.fields|
      ensures Keys(o)[i] != Keys(o)[j]
    {
      KeysOfAt(o.fields, i);
      KeysOfAt(o.fields, j);
    }
  }

  /** Removing x from a list without repeats leaves exactly the other
      elements in their order, still without repeats. */
  lemma {:induction false} RemoveDistinct(s: seq<string>, x: string)
    requires Distinct(s) && x in s
    ensures var r := RemoveFirst(s, x).value;
      r == Without(s, x) && Distinct(r) && forall k :: k in r <==> k in s && k != x
    decreases |s|
  {
    assert s == [s[0]] + s[1..];
    var tail := s[1..];
    assert Distinct(tail) by {
      forall i, j | 0 <= i < j < |tail|
        ensures tail[i] != tail[j]
      {
        assert tail[i] == s[i + 1] && tail[j] == s[j + 1];
      }
    }
    assert s[0] !in tail by {
      forall i | 0 <= i < |tail|
        ensures tail[i] != s[0]
      {
        assert tail[i] == s[i + 1];
      }
    }
    if s[0] == x {
      WithoutAbsent(tail, x);
    } else {
      RemoveDistinct(tail, x);
      var rest := RemoveFirst(tail, x).value;
      var r := [s[0]] + rest;
      assert r == RemoveFirst(s, x).value;
      forall i, j | 0 <= i < j < |r|
        ensures r[i] != r[j]
      {
        if i == 0 {
          assert r[j] == rest[j - 1];
        } else {
          assert r[i] == rest[i - 1] && r[j] == rest[j - 1];
        }
      }
    }
  }

  lemma {:induction false} WithoutAbsent(s: seq<string>, x: string)
    requires x !in s
    ensures Without(s, x) == s
    decreases |s|
  {
    if s != [] {
      assert x !in s[1..] by {
        assert s == [s[0]] + s[1..];
      }
      WithoutAbsent(s[1..], x);
      assert s == [s[0]] + s[1..];
    }
  }

  /** `os.path.join(images_path, str(i) + image_ext)`. */
  function ImagePath(imagesPath: string, i: nat, ext: string): string {
    PathJoin(imagesPath, NatToString(i) + ext)
  }

  /** Two lines never share an image file. */
  lemma ImagePathsDistinct(imagesPath: string, ext: string, i: nat, j: nat)
    requires i != j
    ensures ImagePath(imagesPath, i, ext) != ImagePath(imagesPath, j, ext)
  {
    var a, b := NatToString(i) + ext, NatToString(j) + ext;
    if ImagePath(imagesPath, i, ext) == ImagePath(imagesPath, j, ext) {
      assert a[0] == NatToString(i)[0] && b[0] == NatToString(j)[0];
      assert a == b;
      assert NatToString(i) == a[..|a| - |ext|];
      assert NatToString(j) == b[..|b| - |ext|];
      ParseNatToString(i);
      ParseNatToString(j);
    }
  }

  /** One CSV row: `str(data_line.get(k, 0))` for each header key. */
  function Row(rec: Object, header: seq<string>): (row: seq<string>)
    ensures |row| == |header|
  {
    seq(|header|, j requires 0 <= j < |header| => PyStr(Get(rec, header[j]).GetOr(Int(0))))
  }

  /** A row holds the record's value for each header key, `0` where the key
      is missing, and its first cell is the image path just set. */
  lemma RowCells(o: Object, header: seq<string>, p: string)
    requires |header| > 0 && header[0] == PathKey
    ensures var row := Row(Set(o, PathKey, Str(p)), header);
      row[0] == p &&
      forall j | 0 <= j < |header| && header[j] != PathKey ::
        row[j] == if HasKey(o, header[j]) then PyStr(Get(o, header[j]).value) else "0"
  {
    var rec := Set(o, PathKey, Str(p));
    GetSet(o, PathKey, Str(p), PathKey);
    forall j | 0 <= j < |header| && header[j] != PathKey
      ensures Row(rec, header)[j] == if HasKey(o, header[j]) then PyStr(Get(o, header[j]).value) else "0"
    {
      GetSet(o, PathKey, Str(p), header[j]);
    }
  }

  /** What has been written so far: the header (empty until written), the
      rows, and the images saved under their paths. */
  datatype Table = Table(header: seq<string>, rows: seq<seq<string>>, images: seq<(string, Image)>)

  const Empty: Table := Table([], [], [])

  /** One line's effect: `Next` carries on, `Crash` is where the source
      raises, with what was written before the exception. */
  datatype StepResult = Next(t: Table) | Crash(t: Table)

  function Step(t: Table, i: nat, line: Option<Object>, imagesPath: string, ext: string,
                decode: Value -> Option<Image>): StepResult
  {
    match line
    case None => Crash(t)
    case Some(o) =>
      match Get(o, MsgType)
      case None => Crash(t)
      case Some(kind) =>
        if kind != Str(Telemetry) then Next(t)
        else
          var h := if t.header == [] then NewHeader(o) else Some(t.header);
          if h.None? then Crash(t) else Save(t.(header := h.value), i, o, imagesPath, ext, decode)
  }

  /** A telemetry line once the header is written: its image is saved under
      its path and its row is appended. */
  function Save(t: Table, i: nat, o: Object, imagesPath: string, ext: string,
                decode: Value -> Option<Image>): StepResult
  {
    var p := ImagePath(imagesPath, i, ext);
    var rec := Set(o, PathKey, Str(p));
    match Get(rec, ImageKey)
    case None => Crash(t)
    case Some(encoded) =>
      match decode(encoded)
      case None => Crash(t)
      case Some(image) =>
        Next(t.(rows := t.rows + [Row(rec, t.header)], images := t.images + [(p, image)]))
  }

  /** The state after the first lines: still going, or crashed at a line. */
  datatype Run = Going(t: Table) | Crashed(line: nat, t: Table)

  function RunLines(lines: seq<Option<Object>>, imagesPath: string, ext: string,
                    decode: Value -> Option<Image>): Run
    decreases |lines|
  {
    if lines == [] then Going(Empty)
    else
      var i := |lines| - 1;
      match RunLines(lines[..i], imagesPath, ext, decode)
      case Crashed(at, t) => Crashed(at, t)
      case Going(t) =>
        match Step(t, i, lines[i], imagesPath, ext, decode)
        case Next(t') => Going(t')
        case Crash(t') => Crashed(i, t')
  }

  datatype Extraction = AlreadyExtracted | Extracted(t: Table) | Failed(line: nat, t: Table)

  /** `extract`: nothing happens when both outputs exist; otherwise every
      line is processed until the first one that raises. */
  function ExtractSpec(alreadyExtracted: bool, lines: seq<Option<Object>>, imagesPath: string, ext: string,
                       decode: Value -> Option<Image>): Extraction
  {
    if alreadyExtracted then AlreadyExtracted
    else
      match RunLines(lines, imagesPath, ext, decode)
      case Going(t) => Extracted(t)
      case Crashed(at, t) => Failed(at, t)
  }

  /** The label file's lines: the header, then one line per row. */
  function CsvLines(t: Table): seq<string> {
    (if t.header == [] then [] else [Join(t.header, ",")]) +
    seq(|t.rows|, k requires 0 <= k < |t.rows| => Join(t.rows[k], ","))
  }

  function TelemetryCount(lines: seq<Option<Object>>): nat
    decreases |lines|
  {
    if lines == [] then 0
    else
      var last := lines[|lines| - 1];
      TelemetryCount(lines[..|lines| - 1]) +
      (if last.Some? && Get(last.value, MsgType) == Some(Str(Telemetry)) then 1 else 0)
  }

  /** A completed extraction writes one row and one image per telemetry
      line and none for the other lines; the header is written exactly when
      there is a telemetry line, before any row, and every row is as wide as
      the header. */
  lemma {:induction false} ExtractedCounts(lines: seq<Option<Object>>, imagesPath: string, ext: string,
                                           decode: Value -> Option<Image>)
    requires RunLines(lines, imagesPath, ext, decode).Going?
    ensures var t := RunLines(lines, imagesPath, ext, decode).t;
      |t.rows| == |t.images| == TelemetryCount(lines) &&
      (t.header == [] <==> TelemetryCount(lines) == 0) &&
      (t.header != [] ==> t.header[0] == PathKey) &&
      forall k | 0 <= k < |t.rows| :: |t.rows[k]| == |t.header|
    decreases |lines|
  {
    if lines != [] {
      var i := |lines| - 1;
      ExtractedCounts(lines[..i], imagesPath, ext, decode);
    }
  }

  /** Once written, the header never changes. */
  lemma HeaderWrittenOnce(t: Table, i: nat, line: Option<Object>, imagesPath: string, ext: string,
                          decode: Value -> Option<Image>)
    requires t.header != []
    ensures Step(t, i, line, imagesPath, ext, decode).t.header == t.header
  {
  }

  /** Crashing ends the extraction: later lines change nothing. */
  lemma {:induction false} CrashedStays(lines: seq<Option<Object>>, n: nat, imagesPath: string, ext: string,
                                        decode: Value -> Option<Image>)
    requires n <= |lines| && RunLines(lines[..n], imagesPath, ext, decode).Crashed?
    ensures RunLines(lines, imagesPath, ext, decode) == RunLines(lines[..n], imagesPath, ext, decode)
    decreases |lines| - n
  {
    if n < |lines| {
      assert lines[..|lines| - 1][..n] == lines[..n];
      CrashedStays(lines[..|lines| - 1], n, imagesPath, ext, decode);
    } else {
      assert lines[..n] == lines;
    }
  }

  /** `ESLRExtractor.extract`, with its `label_head_is_defined` flag. The
      returned lines are the lines this call writes to the label file,
      whether it ends normally or by an exception; when both outputs
      already exist it writes none and the file keeps its old content. */
  method Extract(alreadyExtracted: bool, lines: seq<Option<Object>>, imagesPath: string, ext: string,
                 decode: Value -> Option<Image>) returns (r: Extraction, labelFile: seq<string>)
    ensures r == ExtractSpec(alreadyExtracted, lines, imagesPath, ext, decode)
    ensures labelFile == if r.AlreadyExtracted? then [] else CsvLines(r.t)
  {
    if alreadyExtracted {
      return AlreadyExtracted, [];
    }
    labelFile := [];
    var headDefined := false;
    var head: seq<string> := [];
    var rows: seq<seq<string>> := [];
    var images: seq<(string, Image)> := [];
    for i := 0 to |lines|
      invariant RunLines(lines[..i], imagesPath, ext, decode) == Going(Table(head, rows, images))
      invariant headDefined <==> head != []
      invariant head == [] ==> rows == []
      invariant labelFile == CsvLines(Table(head, rows, images))
    {
      var step, written;
      step, written, headDefined := ReadLine(Table(head, rows, images), headDefined, i, lines[i], imagesPath, ext, decode);
      labelFile := labelFile + written;
      if step.Crash? {
        CrashAt(lines, i, imagesPath, ext, decode, step.t);
        return Failed(i, step.t), labelFile;
      }
      RunNext(lines, i, imagesPath, ext, decode, Table(head, rows, images), step.t);
      head, rows, images := step.t.header, step.t.rows, step.t.images;
    }
    assert lines[..|lines|] == lines;
    r := Extracted(Table(head, rows, images));
  }

  /** One pass of the loop in `extract`: the line's effect on what has been
      written, the label-file lines it adds (also when it raises half-way),
      and the new `label_head_is_defined`. */
  method ReadLine(t: Table, headDefined: bool, i: nat, line: Option<Object>, imagesPath: string, ext: string,
                  decode: Value -> Option<Image>) returns (step: StepResult, written: seq<string>, headDefined': bool)
    requires headDefined <==> t.header != []
    requires t.header == [] ==> t.rows == []
    ensures step == Step(t, i, line, imagesPath, ext, decode)
    ensures CsvLines(step.t) == CsvLines(t) + written
    ensures (headDefined' <==> step.t.header != []) && (step.t.header == [] ==> step.t.rows == [])
  {
    written, headDefined' := [], headDefined;
    if line.None? {
      return Crash(t), written, headDefined';
    }
    var o := line.value;
    var kind := Get(o, MsgType);
    if kind.None? {
      return Crash(t), written, headDefined';
    }
    if kind.value != Str(Telemetry) {
      return Next(t), written, headDefined';
    }
    var head := t.header;
    if !headDefined {
      var h := NewHeader(o);
      if h.None? {
        return Crash(t), written, headDefined';
      }
      head := h.value;
      written := [Join(head, ",")];
      headDefined' := true;
    }
    var t1 := t.(header := head);
    assert Step(t, i, line, imagesPath, ext, decode) == Save(t1, i, o, imagesPath, ext, decode);
    var p := ImagePath(imagesPath, i, ext);
    var rec := Set(o, PathKey, Str(p));
    var encoded := Get(rec, ImageKey);
    if encoded.None? {
      return Crash(t1), written, headDefined';
    }
    var image := decode(encoded.value);
    if image.None? {
      return Crash(t1), written, headDefined';
    }
    var row := Row(rec, head);
    CsvAppendRow(t1, row, (p, image.value));
    step := Next(t1.(rows := t.rows + [row], images := t.images + [(p, image.value)]));
    written := written + [Join(row, ",")];
  }

  /** Writing a row adds its line at the end of the label file. */
  lemma CsvAppendRow(t: Table, row: seq<string>, image: (string, Image))
    requires t.header != []
    ensures CsvLines(Table(t.header, t.rows + [row], t.images + [image])) == CsvLines(t) + [Join(row, ",")]
  {
  }

  /** A line that does not raise moves the run on. */
  lemma RunNext(lines: seq<Option<Object>>, i: nat, imagesPath: string, ext: string,
                decode: Value -> Option<Image>, t: Table, t': Table)
    requires i < |lines|
    requires RunLines(lines[..i], imagesPath, ext, decode) == Going(t)
    requires Step(t, i, lines[i], imagesPath, ext, decode) == Next(t')
    ensures RunLines(lines[..i + 1], imagesPath, ext, decode) == Going(t')
  {
    assert lines[..i + 1][..i] == lines[..i];
  }

  /** A crash at line i is the crash of the whole extraction. */
  lemma CrashAt(lines: seq<Option<Object>>, i: nat, imagesPath: string, ext: string,
                decode: Value -> Option<Image>, t: Table)
    requires i < |lines|
    requires RunLines(lines[..i], imagesPath, ext, decode).Going?
    requires Step(RunLines(lines[..i], imagesPath, ext, decode).t, i, lines[i], imagesPath, ext, decode) == Crash(t)
    ensures ExtractSpec(false, lines, imagesPath, ext, decode) == Failed(i, t)
  {
    assert lines[..i + 1][..i] == lines[..i];
    CrashedStays(lines, i + 1, imagesPath, ext, decode);
  }

  // ---------------------------------------------------------------------
  // Labelling
  // ---------------------------------------------------------------------

  /** A row's label: `E` or `R`, the only two values ever stored. */
  datatype Label = E | R

  /** The cursor and the labels after the pressed keys have been handled,
      and whether `Return` closed the window. */
  datatype Ui = Ui(index: nat, labels: seq<Label>, closed: bool)

  /** One `key_press` entry. Left moves back unless at the first row, Right
      moves on unless at the last row, `e`/`r` label the current row, and a
      pressed `Return` closes. Released keys do nothing. */
  function Press(index: nat, labels: seq<Label>, key: string, pressed: bool): (u: Ui)
    requires index < |labels|
    ensures u.index < |labels| && |u.labels| == |labels|
  {
    var index1 := if key == "Left" && pressed && index != 0 then index - 1 else index;
    var index2 := if key == "Right" && pressed && index1 != |labels| - 1 then index1 + 1 else index1;
    var labels1 := if key == "e" && pressed then labels[index2 := E] else labels;
    var labels2 := if key == "r" && pressed then labels1[index2 := R] else labels1;
    Ui(index2, labels2, key == "Return" && pressed)
  }

  /** What each pressed key does: the arrows move the cursor one row within
      the table and leave the labels alone, `e` and `r` relabel the current
      row only, `Return` closes and changes nothing else, and any other key,
      or a released one, does nothing. */
  lemma PressEffect(index: nat, labels: seq<Label>, key: string, pressed: bool)
    requires index < |labels|
    ensures var u := Press(index, labels, key, pressed);
      (!pressed ==> u == Ui(index, labels, false)) &&
      (pressed && key == "Left" ==> u == Ui(if index == 0 then 0 else index - 1, labels, false)) &&
      (pressed && key == "Right" ==> u == Ui(if index == |labels| - 1 then index else index + 1, labels, false)) &&
      (pressed && key == "e" ==> u == Ui(index, labels[index := E], false)) &&
      (pressed && key == "r" ==> u == Ui(index, labels[index := R], false)) &&
      (pressed && key == "Return" ==> u == Ui(index, labels, true)) &&
      (key !in {"Left", "Right", "e", "r", "Return"} ==> u == Ui(index, labels, false))
  {
  }

  /** One `key_listener` pass over the pressed-key table, in its order,
      stopping at a pressed `Return`. */
  function Listen(index: nat, labels: seq<Label>, keys: seq<(string, bool)>): (u: Ui)
    requires index < |labels|
    ensures u.index < |labels| && |u.labels| == |labels|
    decreases |keys|
  {
    if keys == [] then Ui(index, labels, false)
    else
      var u := Press(index, labels, keys[0].0, keys[0].1);
      if u.closed then u else Listen(u.index, u.labels, keys[1..])
  }

  predicate Moves(keys: seq<(string, bool)>) {
    exists k | 0 <= k < |keys| :: keys[k].1 && (keys[k].0 == "Left" || keys[k].0 == "Right")
  }

  predicate Labels(keys: seq<(string, bool)>) {
    exists k | 0 <= k < |keys| :: keys[k].1 && (keys[k].0 == "e" || keys[k].0 == "r")
  }

  /** Without a pressed `e` or `r` no label changes; without a pressed
      arrow the cursor stays and only the current row's label can change. */
  lemma {:induction false} ListenChanges(index: nat, labels: seq<Label>, keys: seq<(string, bool)>)
    requires index < |labels|
    ensures !Labels(keys) ==> Listen(index, labels, keys).labels == labels
    ensures !Moves(keys) ==> Listen(index, labels, keys).index == index
    ensures !Moves(keys) ==> forall k | 0 <= k < |labels| && k != index ::
      Listen(index, labels, keys).labels[k] == labels[k]
    decreases |keys|
  {
    if keys != [] {
      var u := Press(index, labels, keys[0].0, keys[0].1);
      if !u.closed {
        ListenChanges(u.index, u.labels, keys[1..]);
        assert !Labels(keys) ==> !Labels(keys[1..]) by {
          if Labels(keys[1..]) {
            var k :| 0 <= k < |keys[1..]| && keys[1..][k].1 && (keys[1..][k].0 == "e" || keys[1..][k].0 == "r");
            assert keys[k + 1] == keys[1..][k];
          }
        }
        assert !Moves(keys) ==> !Moves(keys[1..]) by {
          if Moves(keys[1..]) {
            var k :| 0 <= k < |keys[1..]| && keys[1..][k].1 && (keys[1..][k].0 == "Left" || keys[1..][k].0 == "Right");
            assert keys[k + 1] == keys[1..][k];
          }
        }
      }
      assert !Labels(keys) ==> !(keys[0].1 && (keys[0].0 == "e" || keys[0].0 == "r"));
      assert !Moves(keys) ==> !(keys[0].1 && (keys[0].0 == "Left" || keys[0].0 == "Right"));
    }
  }

  class SpliterUI {
    var index: nat
    const labels: array<Label>

    /** The window opens on the first row, every row labelled `E`. The
      source draws the first row at once and fails on an empty table. */
    constructor (rows: nat)
      requires rows > 0
      ensures labels.Length == rows && index == 0 && fresh(labels)
      ensures forall k | 0 <= k < rows :: labels[k] == E
    {
      labels := new Label[rows](_ => E);
      index := 0;
    }

    /** One `key_listener` call: the entries of the pressed-key table in
      order, updating the cursor and the current row's label in place;
      `closed` is set where `Return` calls `close` and stops the timer. */
    method KeyListener(keys: seq<(string, bool)>) returns (closed: bool)
      requires index < labels.Length
      modifies this`index, labels
      ensures index < labels.Length
      ensures Ui(index, labels[..], closed) == Listen(old(index), old(labels[..]), keys)
    {
      closed := false;
      var n := 0;
      while n < |keys|
        invariant n <= |keys| && index < labels.Length
        invariant Listen(old(index), old(labels[..]), keys) == Listen(index, labels[..], keys[n..])
        decreases |keys| - n
      {
        var key, pressed := keys[n].0, keys[n].1;
        ghost var u := Press(index, labels[..], key, pressed);
        assert keys[n..][1..] == keys[n + 1..];
        if key == "Left" && pressed && index != 0 {
          index := index - 1;
        }
        if key == "Right" && pressed && index != labels.Length - 1 {
          index := index + 1;
        }
        if key == "e" && pressed {
          labels[index] := E;
        }
        if key == "r" && pressed {
          labels[index] := R;
        }
        assert index == u.index && labels[..] == u.labels;
        if key == "Return" && pressed {
          closed := true;
          return;
        }
        n := n + 1;
      }
    }

    /** `close`: the indices of the rows going to the `E` file and to the
      `R` file, each in row order. */
    method Close() returns (eRows: seq<nat>, rRows: seq<nat>)
      ensures eRows == Partition(labels[..], E) && rRows == Partition(labels[..], R)
      ensures forall k | 0 <= k < labels.Length :: (k in eRows <==> labels[k] == E) && (k in rRows <==> labels[k] == R)
      ensures |eRows| + |rRows| == labels.Length
    {
      eRows := Partition(labels[..], E);
      rRows := Partition(labels[..], R);
      forall k | 0 <= k < labels.Length
        ensures (k in eRows <==> labels[k] == E) && (k in rRows <==> labels[k] == R)
      {
        PartitionExact(labels[..], k);
      }
      if labels.Length > 0 {
        PartitionExact(labels[..], 0);
      }
    }
  }

  /** The indices of the rows carrying a label, in increasing order. */
  function Partition(labels: seq<Label>, l: Label): (idx: seq<nat>)
    ensures forall a, b | 0 <= a < b < |idx| :: idx[a] < idx[b]
    ensures forall k | 0 <= k < |idx| :: idx[k] < |labels| && labels[idx[k]] == l
    decreases |labels|
  {
    if labels == [] then []
    else
      var front := Partition(labels[..|labels| - 1], l);
      if labels[|labels| - 1] == l then front + [|labels| - 1] else front
  }

  /** Every row lands in exactly one of the two files, once. */
  lemma {:induction false} PartitionExact(labels: seq<Label>, k: nat)
    requires k < |labels|
    ensures k in Partition(labels, E) <==> labels[k] == E
    ensures k in Partition(labels, R) <==> labels[k] == R
    ensures |Partition(labels, E)| + |Partition(labels, R)| == |labels|
    decreases |labels|
  {
    var n := |labels| - 1;
    var front := labels[..n];
    if k < n {
      PartitionExact(front, k);
    } else if n > 0 {
      PartitionExact(front, 0);
    }
    assert k == n ==> k !in Partition(front, E) && k !in Partition(front, R);
  }
}
