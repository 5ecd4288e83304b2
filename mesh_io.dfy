/**
 * The OBJ reader and the mesh concatenation of geode/mesh/__init__.py: read_obj's line loop,
 * run over the lines the file yields, and merge_meshes over a list of (triangles, positions).
 * Strings are Python 2 byte strings; float conversion of coordinates is not modelled, so
 * coordinates stay as their text tokens.
 */
module MeshIo {
  import TriangleSoup

  datatype Option<T> = None | Some(value: T)

  /** The Python exceptions the code can raise. */
  datatype Error = IndexError | ValueError | AssertionError

  datatype Result<T> = Ok(value: T) | Err(error: Error)

  // ---------------------------------------------------------------------------
  // The str methods read_obj relies on

  /** The bytes str.split() treats as whitespace: space, \t, \n, \v, \f and \r. */
  predicate IsSpace(c: char)
  {
    c == ' ' || '\t' <= c <= '\r'
  }

  /** line.rstrip('\r\n'): every trailing '\r' and '\n' removed, nothing else. */
  function RStripNewlines(s: string): (r: string)
    ensures r <= s
    ensures forall i | |r| <= i < |s| :: s[i] == '\r' || s[i] == '\n'
    ensures r == [] || (r[|r| - 1] != '\r' && r[|r| - 1] != '\n')
    decreases |s|
  {
    if s != [] && (s[|s| - 1] == '\r' || s[|s| - 1] == '\n') then RStripNewlines(s[..|s| - 1]) else s
  }

  /** The index of the first whitespace byte at or after i, or |s|. */
  function WordEnd(s: string, i: nat): (j: nat)
    requires i <= |s|
    ensures i <= j <= |s|
    ensures forall k | i <= k < j :: !IsSpace(s[k])
    ensures j == |s| || IsSpace(s[j])
    decreases |s| - i
  {
    if i == |s| || IsSpace(s[i]) then i else WordEnd(s, i + 1)
  }

  /** s with every whitespace byte removed. */
  function Squeeze(s: string): string
  {
    if s == [] then [] else (if IsSpace(s[0]) then [] else [s[0]]) + Squeeze(s[1..])
  }

  function Concat(ws: seq<string>): string
  {
    if ws == [] then [] else ws[0] + Concat(ws[1..])
  }

  lemma {:induction false} SqueezeAppend(a: string, b: string)
    ensures Squeeze(a + b) == Squeeze(a) + Squeeze(b)
    decreases |a|
  {
    if a != [] {
      var head := if IsSpace(a[0]) then [] else [a[0]];
      assert (a + b)[0] == a[0];
      assert (a + b)[1..] == a[1..] + b;
      SqueezeAppend(a[1..], b);
      calc {
        Squeeze(a + b);
        head + Squeeze(a[1..] + b);
        head + (Squeeze(a[1..]) + Squeeze(b));
        (head + Squeeze(a[1..])) + Squeeze(b);
        Squeeze(a) + Squeeze(b);
      }
    } else {
      assert a + b == b;
    }
  }

  lemma {:induction false} SqueezeWord(w: string)
    requires forall c | c in w :: !IsSpace(c)
    ensures Squeeze(w) == w
    decreases |w|
  {
    if w != [] {
      SqueezeWord(w[1..]);
    }
  }

  /**
   * line.split(): the maximal runs of non-whitespace bytes, in order. The words are nonempty,
   * hold no whitespace and together hold exactly the non-whitespace bytes of s.
   */
  function Words(s: string): (r: seq<string>)
    ensures forall w | w in r :: w != [] && forall c | c in w :: !IsSpace(c)
    ensures Concat(r) == Squeeze(s)
    decreases |s|
  {
    if s == [] then []
    else if IsSpace(s[0]) then
      Words(s[1..])
    else
      var n := WordEnd(s, 0);
      assert s == s[..n] + s[n..];
      SqueezeAppend(s[..n], s[n..]);
      SqueezeWord(s[..n]);
      [s[..n]] + Words(s[n..])
  }

  /** A line splits into no words exactly when it is all whitespace. */
  lemma {:induction false} WordsEmpty(s: string)
    ensures Words(s) == [] <==> forall c | c in s :: IsSpace(c)
    decreases |s|
  {
    if s != [] {
      if IsSpace(s[0]) {
        WordsEmpty(s[1..]);
        assert forall c | c in s :: c == s[0] || c in s[1..];
      }
    }
  }

  function IndexOf(s: string, c: char): (i: nat)
    requires c in s
    ensures i < |s| && s[i] == c && c !in s[..i]
  {
    if s[0] == c then 0 else 1 + IndexOf(s[1..], c)
  }

  /** The fields joined back with sep between them. */
  function JoinWith(fs: seq<string>, sep: char): string
    requires |fs| >= 1
  {
    if |fs| == 1 then fs[0] else fs[0] + [sep] + JoinWith(fs[1..], sep)
  }

  /** s.split(sep) for a one-byte sep. */
  function SplitOn(s: string, sep: char): (r: seq<string>)
    ensures |r| >= 1
    decreases |s|
  {
    if sep !in s then [s]
    else
      var i := IndexOf(s, sep);
      [s[..i]] + SplitOn(s[i + 1..], sep)
  }

  /** The fields of s.split(sep) hold no sep and, joined with sep, give back s. */
  lemma {:induction false} SplitOnJoins(s: string, sep: char)
    ensures forall f | f in SplitOn(s, sep) :: sep !in f
    ensures JoinWith(SplitOn(s, sep), sep) == s
    decreases |s|
  {
    if sep in s {
      var i := IndexOf(s, sep);
      assert s == s[..i] + [sep] + s[i + 1..];
      SplitOnJoins(s[i + 1..], sep);
    }
  }

  // ---------------------------------------------------------------------------
  // int() of a token

  predicate IsDigit(c: char)
  {
    '0' <= c <= '9'
  }

  function DigitsValue(d: string): nat
    requires forall c | c in d :: IsDigit(c)
  {
    if d == [] then 0
    else
      assert d[|d| - 1] in d && IsDigit(d[|d| - 1]);
      assert forall c | c in d[..|d| - 1] :: c in d;
      10 * DigitsValue(d[..|d| - 1]) + (d[|d| - 1] as int - '0' as int)
  }

  predicate AllDigits(d: string)
  {
    forall c | c in d :: IsDigit(c)
  }

  /** What int() accepts of a token without whitespace: an optional sign and at least one decimal digit. */
  predicate IsIntToken(t: string)
  {
    if t != [] && (t[0] == '+' || t[0] == '-') then |t| > 1 && AllDigits(t[1..]) else t != [] && AllDigits(t)
  }

  /** int(t): None is the ValueError of a token that is not a decimal integer. */
  function ParseInt(t: string): (r: Option<int>)
    ensures r.Some? <==> IsIntToken(t)
    ensures r.Some? && t[0] == '-' ==> r.value <= 0
    ensures r.Some? && t[0] != '-' ==> r.value >= 0
  {
    if !IsIntToken(t) then None
    else if t[0] == '+' || t[0] == '-' then
      var n: int := DigitsValue(t[1..]);
      Some(if t[0] == '-' then -n else n)
    else
      Some(DigitsValue(t))
  }

  /** The decimal digits of n, as str() writes them. */
  function ShowNat(n: nat): (d: string)
    ensures d != [] && forall c | c in d :: IsDigit(c)
  {
    if n < 10 then [('0' as int + n) as char] else ShowNat(n / 10) + [('0' as int + n % 10) as char]
  }

  /** Reading back what str() wrote gives the number. */
  lemma {:induction false} ShowNatRoundTrip(n: nat)
    ensures DigitsValue(ShowNat(n)) == n
  {
    if n >= 10 {
      ShowNatRoundTrip(n / 10);
      var d := ShowNat(n);
      assert d[..|d| - 1] == ShowNat(n / 10);
    }
  }

  lemma ParseShowNat(n: nat)
    ensures ParseInt(ShowNat(n)) == Some(n)
    ensures ParseInt("-" + ShowNat(n)) == Some(-(n as int))
  {
    ShowNatRoundTrip(n);
    var d := ShowNat(n);
    assert d[0] in d;
    assert ("-" + d)[1..] == d;
  }

  // ---------------------------------------------------------------------------
  // The line loop of read_obj

  /** The lists read_obj appends to while it reads. */
  datatype Parsed = Parsed(
    material: Option<string>,
    x: seq<seq<string>>,
    normals: seq<seq<string>>,
    texcoords: seq<seq<string>>,
    counts: seq<int>,
    vertices: seq<string>,
    faceNormals: seq<string>,
    faceTexcoords: seq<string>)

  const Start := Parsed(None, [], [], [], [], [], [], [])

  function Min(a: int, b: int): int
  {
    if a < b then a else b
  }

  /** What one vertex token "v/vt/vn" of an 'f' line contributes to the three corner lists. */
  datatype Corners = Corners(vertices: seq<string>, texcoords: seq<string>, normals: seq<string>)

  function CornerOf(token: string): Corners
  {
    var w := SplitOn(token, '/');
    Corners([w[0]],
            if |w| >= 2 && w[1] != [] then [w[1]] else [],
            if |w| >= 3 && w[2] != [] then [w[2]] else [])
  }

  /** The corner lists of the tokens values[1..k] of an 'f' line, in order. */
  function FaceCorners(values: seq<string>, k: nat): (r: Corners)
    requires 1 <= k <= |values|
    ensures |r.vertices| == k - 1
    ensures |r.texcoords| <= k - 1 && |r.normals| <= k - 1
  {
    if k == 1 then Corners([], [], [])
    else
      var a, b := FaceCorners(values, k - 1), CornerOf(values[k - 1]);
      Corners(a.vertices + b.vertices, a.texcoords + b.texcoords, a.normals + b.normals)
  }

  /** Each vertex of an 'f' line is the part of its token before the first '/'. */
  lemma {:induction false} CornerVertices(values: seq<string>, k: nat, i: nat)
    requires 1 <= k <= |values| && i < k - 1
    ensures FaceCorners(values, k).vertices[i] == SplitOn(values[i + 1], '/')[0]
  {
    if i < k - 2 {
      CornerVertices(values, k - 1, i);
    }
  }

  function SumOf(s: seq<int>): int
  {
    if s == [] then 0 else SumOf(s[..|s| - 1]) + s[|s| - 1]
  }

  /**
   * One split line. Blank lines and '#' commands change nothing; 'usemtl'/'usemat' without a
   * name is the IndexError of values[1]; an 'f' line adds its corner count and its corners.
   */
  function Step(st: Parsed, values: seq<string>): (r: Result<Parsed>)
    ensures values == [] || (values[0] != [] && values[0][0] == '#') ==> r == Ok(st)
    ensures r.Err? <==> values != [] && values[0] in {"usemtl", "usemat"} && !(values[0] != [] && values[0][0] == '#') && |values| < 2
    ensures r.Ok? && values != [] && values[0] == "f" ==>
              && r.value.counts == st.counts + [|values| - 1]
              && r.value.vertices == st.vertices + FaceCorners(values, |values|).vertices
  {
    if values == [] then Ok(st)
    else
      var cmd := values[0];
      if cmd != [] && cmd[0] == '#' then Ok(st)
      else if cmd == "v" then Ok(st.(x := st.x + [values[1..Min(4, |values|)]]))
      else if cmd == "vn" then Ok(st.(normals := st.normals + [values[1..Min(4, |values|)]]))
      else if cmd == "vt" then Ok(st.(texcoords := st.texcoords + [values[1..Min(3, |values|)]]))
      else if cmd == "usemtl" || cmd == "usemat" then
        if |values| < 2 then Err(IndexError) else Ok(st.(material := Some(values[1])))
      else if cmd == "f" then
        var c := FaceCorners(values, |values|);
        Ok(st.(counts := st.counts + [|values| - 1],
               vertices := st.vertices + c.vertices,
               faceTexcoords := st.faceTexcoords + c.texcoords,
               faceNormals := st.faceNormals + c.normals))
      else Ok(st)
  }

  /** What file.readline() yields at position i: the raw line, or "" at the end of the file. */
  function ReadLine(lines: seq<string>, i: nat): string
  {
    if i < |lines| then lines[i] else ""
  }

  /**
   * The logical line starting at raw line i (which is not ""), and where the next one starts:
   * trailing "\r\n" bytes stripped and, when the result ends in a backslash, the backslash
   * replaced by the next raw line.
   */
  function LogicalLine(lines: seq<string>, i: nat): (r: (string, nat))
    requires i < |lines|
    ensures var s := RStripNewlines(lines[i]);
            if s != [] && s[|s| - 1] == '\\' then
              r.0 == s[..|s| - 1] + ReadLine(lines, i + 1) && r.1 == Min(i + 2, |lines|)
            else r == (s, i + 1)
  {
    var s := RStripNewlines(lines[i]);
    if s != [] && s[|s| - 1] == '\\' then
      (s[..|s| - 1] + ReadLine(lines, i + 1), if i + 1 < |lines| then i + 2 else i + 1)
    else
      (s, i + 1)
  }

  /** The lists after reading from raw line i on, starting from st; an empty raw line ends the file. */
  function ParseFrom(lines: seq<string>, i: nat, st: Parsed): Result<Parsed>
    decreases |lines| - i
  {
    if i >= |lines| || lines[i] == "" then Ok(st)
    else
      var (line, next) := LogicalLine(lines, i);
      match Step(st, Words(line))
      case Err(e) => Err(e)
      case Ok(st') => ParseFrom(lines, next, st')
  }

  /** The well-formedness the loop keeps: one vertex per counted corner, at most one texcoord and normal each. */
  ghost predicate Consistent(p: Parsed)
  {
    && |p.vertices| == SumOf(p.counts)
    && |p.faceTexcoords| <= |p.vertices|
    && |p.faceNormals| <= |p.vertices|
    && forall c | c in p.counts :: c >= 0
  }

  lemma StepConsistent(st: Parsed, values: seq<string>)
    requires Consistent(st)
    ensures Step(st, values).Ok? ==> Consistent(Step(st, values).value)
  {
    if values != [] && values[0] == "f" {
      var counts := st.counts + [|values| - 1];
      assert counts[..|counts| - 1] == st.counts;
    }
  }

  lemma {:induction false} ParseConsistent(lines: seq<string>, i: nat, st: Parsed)
    requires Consistent(st)
    ensures ParseFrom(lines, i, st).Ok? ==> Consistent(ParseFrom(lines, i, st).value)
    decreases |lines| - i
  {
    if i < |lines| && lines[i] != "" {
      var (line, next) := LogicalLine(lines, i);
      StepConsistent(st, Words(line));
      if Step(st, Words(line)).Ok? {
        ParseConsistent(lines, next, Step(st, Words(line)).value);
      }
    }
  }

  lemma StepFace(st: Parsed, values: seq<string>)
    requires values != [] && values[0] == "f"
    ensures var c := FaceCorners(values, |values|);
            Step(st, values) == Ok(st.(counts := st.counts + [|values| - 1], vertices := st.vertices + c.vertices,
                                       faceTexcoords := st.faceTexcoords + c.texcoords, faceNormals := st.faceNormals + c.normals))
  {
  }

  /** The 'f' branch of the loop: count the corners, then walk the tokens after the command. */
  method AddFace(st0: Parsed, values: seq<string>) returns (st: Parsed)
    requires values != [] && values[0] == "f"
    ensures var c := FaceCorners(values, |values|);
            st == st0.(counts := st0.counts + [|values| - 1], vertices := st0.vertices + c.vertices,
                       faceTexcoords := st0.faceTexcoords + c.texcoords, faceNormals := st0.faceNormals + c.normals)
  {
    var counts := st0.counts + [|values| - 1];
    var vertices, faceTexcoords, faceNormals := st0.vertices, st0.faceTexcoords, st0.faceNormals;
    var k := 1;
    while k < |values|
      invariant 1 <= k <= |values|
      invariant vertices == st0.vertices + FaceCorners(values, k).vertices
      invariant faceTexcoords == st0.faceTexcoords + FaceCorners(values, k).texcoords
      invariant faceNormals == st0.faceNormals + FaceCorners(values, k).normals
    {
      ghost var c, b := FaceCorners(values, k), CornerOf(values[k]);
      assert FaceCorners(values, k + 1) == Corners(c.vertices + b.vertices, c.texcoords + b.texcoords, c.normals + b.normals);
      vertices, faceTexcoords, faceNormals := AddCorner(vertices, faceTexcoords, faceNormals, values[k]);
      k := k + 1;
    }
    st := st0.(counts := counts, vertices := vertices, faceTexcoords := faceTexcoords, faceNormals := faceNormals);
  }

  /** One token of an 'f' line: its vertex, and its texcoord and normal when present. */
  method AddCorner(vertices: seq<string>, faceTexcoords: seq<string>, faceNormals: seq<string>, token: string)
    returns (vertices': seq<string>, faceTexcoords': seq<string>, faceNormals': seq<string>)
    ensures vertices' == vertices + CornerOf(token).vertices
    ensures faceTexcoords' == faceTexcoords + CornerOf(token).texcoords
    ensures faceNormals' == faceNormals + CornerOf(token).normals
  {
    var w := SplitOn(token, '/');
    vertices', faceTexcoords', faceNormals' := vertices + [w[0]], faceTexcoords, faceNormals;
    if |w| >= 2 && w[1] != [] {
      faceTexcoords' := faceTexcoords + [w[1]];
    }
    if |w| >= 3 && w[2] != [] {
      faceNormals' := faceNormals + [w[2]];
    }
  }

  /**
   * The while loop of read_obj: read a raw line, stop at "", strip it, join a continuation,
   * split it and dispatch on the command; an 'f' line walks its tokens.
   */
  method ParseLines(lines: seq<string>) returns (r: Result<Parsed>)
    ensures r == ParseFrom(lines, 0, Start)
    ensures r.Ok? ==> Consistent(r.value)
  {
    ParseConsistent(lines, 0, Start);
    var st := Start;
    var i := 0;
    while i < |lines|
      invariant i <= |lines|
      invariant ParseFrom(lines, i, st) == ParseFrom(lines, 0, Start)
      decreases |lines| - i
    {
      if lines[i] == "" {
        break;
      }
      var line := RStripNewlines(lines[i]);
      var next := i + 1;
      if line != [] && line[|line| - 1] == '\\' {
        line := line[..|line| - 1] + ReadLine(lines, next);
        if next < |lines| {
          next := next + 1;
        }
      }
      var step := Dispatch(st, Words(line));
      if step.Err? {
        return step;
      }
      st := step.value;
      i := next;
    }
    r := Ok(st);
  }

  /** The body of read_obj's loop after the line is split: skip a blank line or a comment, else dispatch on the command. */
  method Dispatch(st0: Parsed, values: seq<string>) returns (r: Result<Parsed>)
    ensures r == Step(st0, values)
  {
    if values == [] {
      return Ok(st0);
    }
    var st := st0;
    var cmd := values[0];
    if cmd != [] && cmd[0] == '#' {
    } else if cmd == "v" {
      st := st.(x := st.x + [values[1..Min(4, |values|)]]);
    } else if cmd == "vn" {
      st := st.(normals := st.normals + [values[1..Min(4, |values|)]]);
    } else if cmd == "vt" {
      st := st.(texcoords := st.texcoords + [values[1..Min(3, |values|)]]);
    } else if cmd == "usemtl" || cmd == "usemat" {
      if |values| < 2 {
        return Err(IndexError);
      }
      st := st.(material := Some(values[1]));
    } else if cmd == "f" {
      StepFace(st, values);
      st := AddFace(st, values);
    }
    r := Ok(st);
  }

  // ---------------------------------------------------------------------------
  // Building the result of read_obj

  /** What read_obj returns: the polygon soup (counts, 0-based vertices) and the property lists. */
  datatype Obj = Obj(
    counts: seq<int>,
    vertices: seq<int>,
    x: seq<seq<string>>,
    normals: seq<seq<string>>,
    texcoords: seq<seq<string>>,
    faceNormals: Option<seq<int>>,
    faceTexcoords: Option<seq<int>>)

  /** array(tokens, dtype=int) - 1: each token read as an integer and made 0-based. */
  function ZeroBased(ts: seq<string>): (r: Result<seq<int>>)
    ensures r.Ok? <==> forall t | t in ts :: ParseInt(t).Some?
    ensures r.Ok? ==> |r.value| == |ts| && forall i | 0 <= i < |ts| :: r.value[i] == ParseInt(ts[i]).value - 1
    ensures r.Err? ==> r.error == ValueError
  {
    if ts == [] then Ok([])
    else
      match (ZeroBased(ts[..|ts| - 1]), ParseInt(ts[|ts| - 1]))
      case (Ok(a), Some(n)) =>
        assert forall t | t in ts :: t in ts[..|ts| - 1] || t == ts[|ts| - 1];
        Ok(a + [n - 1])
      case (Err(e), _) =>
        assert forall t | t in ts[..|ts| - 1] :: t in ts;
        Err(e)
      case (_, None) =>
        assert ts[|ts| - 1] in ts;
        Err(ValueError)
  }

  /** A face property list, present when nonempty, asserted to have one entry per corner. */
  function FaceProperty(vertices: seq<string>, ts: seq<string>): (r: Result<Option<seq<int>>>)
    ensures ts == [] ==> r == Ok(None)
    ensures ts != [] && |ts| != |vertices| ==> r == Err(AssertionError)
    ensures r.Ok? && r.value.Some? ==> |r.value.value| == |vertices|
  {
    if ts == [] then Ok(None)
    else if |ts| != |vertices| then Err(AssertionError)
    else match ZeroBased(ts)
      case Ok(v) => Ok(Some(v))
      case Err(e) => Err(e)
  }

  /** The construction after the loop: vertices first, then face normals, then face texcoords. */
  function Finish(p: Parsed): (r: Result<Obj>)
    ensures r.Ok? ==> r.value.counts == p.counts && |r.value.vertices| == |p.vertices|
    ensures r.Ok? ==> ZeroBased(p.vertices) == Ok(r.value.vertices)
    ensures r.Ok? && r.value.faceNormals.Some? ==> |r.value.faceNormals.value| == |p.vertices|
    ensures r.Ok? && r.value.faceTexcoords.Some? ==> |r.value.faceTexcoords.value| == |p.vertices|
  {
    match ZeroBased(p.vertices)
    case Err(e) => Err(e)
    case Ok(vs) =>
      match FaceProperty(p.vertices, p.faceNormals)
      case Err(e) => Err(e)
      case Ok(fn) =>
        match FaceProperty(p.vertices, p.faceTexcoords)
        case Err(e) => Err(e)
        case Ok(ft) => Ok(Obj(p.counts, vs, p.x, p.normals, p.texcoords, fn, ft))
  }

  /** read_obj over the lines of the file. */
  method ReadObj(lines: seq<string>) returns (r: Result<Obj>)
    ensures r == match ParseFrom(lines, 0, Start) case Ok(p) => Finish(p) case Err(e) => Err(e)
    ensures r.Ok? ==> SumOf(r.value.counts) == |r.value.vertices| && forall c | c in r.value.counts :: c >= 0
  {
    var p := ParseLines(lines);
    if p.Err? {
      return Err(p.error);
    }
    r := Finish(p.value);
  }

  // ---------------------------------------------------------------------------
  // merge_meshes

  type Triangle = (int, int, int)

  function Shift(t: Triangle, d: int): Triangle
  {
    (t.0 + d, t.1 + d, t.2 + d)
  }

  /** The triangles of a mesh, each index raised by d (total + elements). */
  function Shifted(ts: seq<Triangle>, d: int): (r: seq<Triangle>)
    ensures |r| == |ts| && forall i | 0 <= i < |ts| :: r[i] == Shift(ts[i], d)
  {
    seq(|ts|, i requires 0 <= i < |ts| => Shift(ts[i], d))
  }

  /** The number of vertices of the surfaces before k. */
  function Offset<P>(surfaces: seq<(seq<Triangle>, seq<P>)>, k: nat): nat
    requires k <= |surfaces|
  {
    if k == 0 then 0 else Offset(surfaces, k - 1) + |surfaces[k - 1].1|
  }

  /** concatenate(tris) and concatenate(X) over the first k surfaces. */
  function MergedPrefix<P>(surfaces: seq<(seq<Triangle>, seq<P>)>, k: nat): (seq<Triangle>, seq<P>)
    requires k <= |surfaces|
  {
    if k == 0 then ([], [])
    else
      var (tris, x) := MergedPrefix(surfaces, k - 1);
      (tris + Shifted(surfaces[k - 1].0, Offset(surfaces, k - 1)), x + surfaces[k - 1].1)
  }

  /** astype(int32): the value modulo 2^32, read as a signed 32-bit integer. */
  function Int32(x: int): (r: int)
    ensures -0x8000_0000 <= r < 0x8000_0000 && (x - r) % 0x1_0000_0000 == 0
    ensures -0x8000_0000 <= x < 0x8000_0000 ==> r == x
  {
    (x + 0x8000_0000) % 0x1_0000_0000 - 0x8000_0000
  }

  function Cast32(ts: seq<Triangle>): (r: seq<Triangle>)
    ensures |r| == |ts|
    ensures forall i | 0 <= i < |ts| :: r[i] == (Int32(ts[i].0), Int32(ts[i].1), Int32(ts[i].2))
  {
    seq(|ts|, i requires 0 <= i < |ts| => (Int32(ts[i].0), Int32(ts[i].1), Int32(ts[i].2)))
  }

  /** What the TriangleSoup constructor accepts: no vertex is negative. */
  predicate SoupVertices(ts: seq<Triangle>)
  {
    forall t | t in ts :: t.0 >= 0 && t.1 >= 0 && t.2 >= 0
  }

  /** The constructor's check as TriangleSoup states it is the same test. */
  lemma SoupVerticesChecked(ts: seq<Triangle>)
    ensures SoupVertices(ts) <==> TriangleSoup.NonNegative(ts)
  {
    if SoupVertices(ts) {
      forall t, i | 0 <= t < |ts| && 0 <= i < 3 ensures TriangleSoup.Corner(ts[t], i) >= 0 {
        assert ts[t] in ts;
      }
    } else {
      var t :| t in ts && !(t.0 >= 0 && t.1 >= 0 && t.2 >= 0);
      var j :| 0 <= j < |ts| && ts[j] == t;
      assert TriangleSoup.Corner(ts[j], 0) < 0 || TriangleSoup.Corner(ts[j], 1) < 0 || TriangleSoup.Corner(ts[j], 2) < 0;
    }
  }

  /**
   * merge_meshes: a single surface comes back as a TriangleSoup; an empty list makes
   * concatenate raise ValueError; otherwise all surfaces are concatenated with indices shifted
   * by the vertex count before them and cast to int32. Building the TriangleSoup raises
   * ValueError when a vertex of the triangles it is given is negative.
   */
  function Merged<P>(surfaces: seq<(seq<Triangle>, seq<P>)>): Result<(seq<Triangle>, seq<P>)>
  {
    if |surfaces| == 1 then
      if SoupVertices(surfaces[0].0) then Ok(surfaces[0]) else Err(ValueError)
    else if surfaces == [] then Err(ValueError)
    else
      var (tris, x) := MergedPrefix(surfaces, |surfaces|);
      var cast := Cast32(tris);
      if SoupVertices(cast) then Ok((cast, x)) else Err(ValueError)
  }

  method MergeMeshes<P>(surfaces: seq<(seq<Triangle>, seq<P>)>) returns (r: Result<(seq<Triangle>, seq<P>)>)
    ensures r == Merged(surfaces)
  {
    if |surfaces| == 1 {
      var soup := TriangleSoup.NodeCount(surfaces[0].0);
      SoupVerticesChecked(surfaces[0].0);
      if soup.Err? {
        return Err(ValueError);
      }
      return Ok(surfaces[0]);
    }
    var tris: seq<Triangle> := [];
    var xs: seq<P> := [];
    var total := 0;
    var k := 0;
    while k < |surfaces|
      invariant k <= |surfaces|
      invariant total == Offset(surfaces, k)
      invariant (tris, xs) == MergedPrefix(surfaces, k)
    {
      tris := tris + Shifted(surfaces[k].0, total);
      xs := xs + surfaces[k].1;
      total := total + |surfaces[k].1|;
      k := k + 1;
    }
    if k == 0 {
      return Err(ValueError);
    }
    var cast := Cast32(tris);
    var soup := TriangleSoup.NodeCount(cast);
    SoupVerticesChecked(cast);
    if soup.Err? {
      return Err(ValueError);
    }
    return Ok((cast, xs));
  }

  /** The merged positions are the concatenation, so surface k's vertices start at Offset(k). */
  lemma {:induction false} MergedPositions<P>(surfaces: seq<(seq<Triangle>, seq<P>)>, k: nat)
    requires k <= |surfaces|
    ensures |MergedPrefix(surfaces, k).1| == Offset(surfaces, k)
    ensures |MergedPrefix(surfaces, k).0| == TriangleCount(surfaces, k)
  {
    if k > 0 {
      MergedPositions(surfaces, k - 1);
    }
  }

  function TriangleCount<P>(surfaces: seq<(seq<Triangle>, seq<P>)>, k: nat): nat
    requires k <= |surfaces|
  {
    if k == 0 then 0 else TriangleCount(surfaces, k - 1) + |surfaces[k - 1].0|
  }

  predicate InRange(t: Triangle, n: int)
  {
    0 <= t.0 < n && 0 <= t.1 < n && 0 <= t.2 < n
  }

  /**
   * Triangle j of surface k lands at TriangleCount(k) + j, shifted by Offset(k); so when every
   * surface indexes its own positions, the merged mesh indexes the merged positions, and
   * index v of surface k names the same point as before.
   */
  lemma {:induction false} MergedTriangle<P>(surfaces: seq<(seq<Triangle>, seq<P>)>, n: nat, k: nat, j: nat)
    requires k < n <= |surfaces| && j < |surfaces[k].0|
    ensures TriangleCount(surfaces, k) + j < |MergedPrefix(surfaces, n).0|
    ensures MergedPrefix(surfaces, n).0[TriangleCount(surfaces, k) + j] == Shift(surfaces[k].0[j], Offset(surfaces, k))
    ensures forall v | 0 <= v < |surfaces[k].1| :: Offset(surfaces, k) + v < |MergedPrefix(surfaces, n).1|
              && MergedPrefix(surfaces, n).1[Offset(surfaces, k) + v] == surfaces[k].1[v]
    decreases n
  {
    MergedPositions(surfaces, n - 1);
    MergedPositions(surfaces, n);
    if k < n - 1 {
      MergedTriangle(surfaces, n - 1, k, j);
    }
  }

  /** If every surface's triangles index its own positions, the merged triangles index the merged positions. */
  lemma MergedInRange<P>(surfaces: seq<(seq<Triangle>, seq<P>)>, n: nat)
    requires n <= |surfaces|
    requires forall k, t | 0 <= k < |surfaces| && t in surfaces[k].0 :: InRange(t, |surfaces[k].1|)
    ensures forall t | t in MergedPrefix(surfaces, n).0 :: InRange(t, |MergedPrefix(surfaces, n).1|)
  {
    if n > 0 {
      MergedInRange(surfaces, n - 1);
      MergedPositions(surfaces, n - 1);
      MergedPositions(surfaces, n);
      var (tris, x) := MergedPrefix(surfaces, n - 1);
      var added := Shifted(surfaces[n - 1].0, Offset(surfaces, n - 1));
      forall t | t in added ensures InRange(t, |MergedPrefix(surfaces, n).1|) {
        var i :| 0 <= i < |added| && added[i] == t;
        assert surfaces[n - 1].0[i] in surfaces[n - 1].0;
      }
    }
  }

  /**
   * When every surface's triangles index its own positions and the merged positions fit
   * int32 indices, merge_meshes succeeds, the cast changes nothing, and the merged triangles
   * index the merged positions.
   */
  lemma MergedValid<P>(surfaces: seq<(seq<Triangle>, seq<P>)>)
    requires |surfaces| > 0
    requires forall k, t | 0 <= k < |surfaces| && t in surfaces[k].0 :: InRange(t, |surfaces[k].1|)
    requires Offset(surfaces, |surfaces|) <= 0x8000_0000
    ensures Merged(surfaces).Ok?
    ensures |surfaces| > 1 ==> Merged(surfaces).value == MergedPrefix(surfaces, |surfaces|)
    ensures forall t | t in Merged(surfaces).value.0 :: InRange(t, |Merged(surfaces).value.1|)
  {
    if |surfaces| == 1 {
      assert surfaces[0] == surfaces[0];
    } else {
      var n := |surfaces|;
      MergedInRange(surfaces, n);
      MergedPositions(surfaces, n);
      var (tris, x) := MergedPrefix(surfaces, n);
      forall i | 0 <= i < |tris| ensures Cast32(tris)[i] == tris[i] {
        assert tris[i] in tris;
      }
      assert Cast32(tris) == tris;
    }
  }

  /** A single raw surface with a negative vertex is refused by the TriangleSoup constructor. */
  lemma MergedRejectsNegative<P>(surfaces: seq<(seq<Triangle>, seq<P>)>, j: int)
    requires |surfaces| == 1 && 0 <= j < |surfaces[0].0|
    requires surfaces[0].0[j].0 < 0 || surfaces[0].0[j].1 < 0 || surfaces[0].0[j].2 < 0
    ensures Merged(surfaces) == Err(ValueError)
  {
    assert surfaces[0].0[j] in surfaces[0].0;
  }

  /**
   * The negative-vertex check runs on the merged, shifted triangles: index -1 of a second
   * surface names the last vertex of the first one and is accepted.
   */
  lemma MergedChecksShifted()
    ensures Merged([([(0, 1, 2)], [10, 11, 12]), ([(-1, 0, 1)], [13, 14])])
         == Ok(([(0, 1, 2), (2, 3, 4)], [10, 11, 12, 13, 14]))
  {
    var surfaces := [([(0, 1, 2)], [10, 11, 12]), ([(-1, 0, 1)], [13, 14])];
    assert Shifted([(0, 1, 2)], 0) == [(0, 1, 2)];
    assert Offset(surfaces, 1) == 3;
    var p0 := MergedPrefix(surfaces, 0);
    assert p0.0 == [] && p0.1 == [];
    assert p0.0 + [(0, 1, 2)] == [(0, 1, 2)] && p0.1 + [10, 11, 12] == [10, 11, 12];
    assert Shifted([(-1, 0, 1)], 3) == [(2, 3, 4)];
    assert MergedPrefix(surfaces, 1) == ([(0, 1, 2)], [10, 11, 12]);
    assert [(0, 1, 2)] + [(2, 3, 4)] == [(0, 1, 2), (2, 3, 4)];
    assert [10, 11, 12] + [13, 14] == [10, 11, 12, 13, 14];
    assert MergedPrefix(surfaces, 2) == ([(0, 1, 2), (2, 3, 4)], [10, 11, 12, 13, 14]);
    assert Cast32([(0, 1, 2), (2, 3, 4)]) == [(0, 1, 2), (2, 3, 4)];
  }

  /** Past 2^31 merged vertices the int32 cast wraps and the constructor sees a negative vertex. */
  lemma MergedWrapsNegative()
    ensures Merged([([(0, 0, 0)], seq(0x8000_0000, i => 0)), ([(0, 0, 0)], [0])]) == Err(ValueError)
  {
    var big := seq(0x8000_0000, i => 0);
    var surfaces := [([(0, 0, 0)], big), ([(0, 0, 0)], [0])];
    assert MergedPrefix(surfaces, 1).0 == [(0, 0, 0)];
    var tris := MergedPrefix(surfaces, 2).0;
    assert tris[1] == (0x8000_0000, 0x8000_0000, 0x8000_0000);
    assert Cast32(tris)[1].0 == -0x8000_0000;
    assert Cast32(tris)[1] in Cast32(tris);
  }
}
