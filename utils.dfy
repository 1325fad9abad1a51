/** The helpers of `src/utils.js`: the body-kind test, the parser of a raw
    header block (header fields, section 3.2 of RFC 7230) and the split of a
    media type from its parameters (section 3.1.1.1 of RFC 7231). */
module Utils {
  import opened Wrappers
  import opened Strings
  import opened Js
  import opened Fields

  /** `isObject(v)`: not null, and `typeof` says "object". */
  function IsObject(v: Value): (r: bool)
    ensures r <==> v.Arr? || v.Obj? || v.Host?
  {
    !v.Null? && TypeOf(v) == "object"
  }

  // ---------------------------------------------------------------------
  // Objects filled by assignment

  /** The map that assigning `obj[k] = v` for every pair in turn builds: a
      later pair overwrites an earlier one with the same key. */
  function Assigned<V>(ps: seq<(string, V)>): map<string, V>
  {
    if ps == [] then map[] else Assigned(ps[..|ps| - 1])[ps[|ps| - 1].0 := ps[|ps| - 1].1]
  }

  lemma AssignedStep<V>(ps: seq<(string, V)>, i: nat)
    requires i < |ps|
    ensures Assigned(ps[..i + 1]) == Assigned(ps[..i])[ps[i].0 := ps[i].1]
  {
    var done := ps[..i + 1];
    assert done[..i] == ps[..i] && done[|done| - 1] == ps[i];
  }

  lemma KeysInit<V>(ps: seq<(string, V)>)
    requires ps != []
    ensures Keys(ps) == Keys(ps[..|ps| - 1]) + [ps[|ps| - 1].0]
  {
    var init := ps[..|ps| - 1];
    var ks, ki := Keys(ps), Keys(init) + [ps[|ps| - 1].0];
    assert |ks| == |ki|;
    forall i | 0 <= i < |ks| ensures ks[i] == ki[i] {
      if i < |init| {
        assert init[i] == ps[i];
      }
    }
  }

  /** A key is in the map exactly when some pair carries it. */
  lemma {:induction false} AssignedKeys<V>(ps: seq<(string, V)>, k: string)
    ensures k in Assigned(ps) <==> k in Keys(ps)
  {
    if ps != [] {
      var init := ps[..|ps| - 1];
      AssignedKeys(init, k);
      KeysInit(ps);
    }
  }

  /** The value under a key is that of the last pair carrying it. */
  lemma {:induction false} AssignedLast<V>(ps: seq<(string, V)>, i: nat)
    requires i < |ps|
    requires forall j :: i < j < |ps| ==> ps[j].0 != ps[i].0
    ensures ps[i].0 in Assigned(ps) && Assigned(ps)[ps[i].0] == ps[i].1
  {
    if i < |ps| - 1 {
      var init := ps[..|ps| - 1];
      assert init[i] == ps[i];
      assert forall j :: i < j < |init| ==> init[j] == ps[j];
      AssignedLast(init, i);
    }
  }

  /** At most one entry per pair. */
  lemma {:induction false} AssignedSize<V>(ps: seq<(string, V)>)
    ensures |Assigned(ps)| <= |ps|
  {
    if ps != [] {
      AssignedSize(ps[..|ps| - 1]);
    }
  }

  // ---------------------------------------------------------------------
  // Header blocks

  /** Drops one carriage return at the end of a line, if there is one. */
  function StripCR(line: string): (r: string)
  {
    if line != [] && line[|line| - 1] == '\r' then line[..|line| - 1] else line
  }

  /** `s.split(/\r?\n/)`: every line feed ends a line, together with a
      carriage return right before it. */
  function SplitLines(s: string): (r: seq<string>)
    ensures |r| >= 1
    decreases |s|
  {
    var j := IndexOf(s, '\n');
    if j < 0 then [s] else [StripCR(s[..j])] + SplitLines(s[j + 1..])
  }

  /** The lines a header block holds: the piece after the last line break
      is dropped (it is empty for a block that ends in one). */
  function HeaderLines(s: string): (r: seq<string>)
    ensures |r| == |SplitLines(s)| - 1
  {
    var lines := SplitLines(s);
    lines[..|lines| - 1]
  }

  /** A header line as a field: its name is the text before the first colon,
      lower-cased, and its value the text after that colon, trimmed.  A line
      without a colon loses its last character for the name
      (`line.slice(0, -1)`) and is its own value. */
  function HeaderEntry(line: string): (string, string)
  {
    var i := IndexOf(line, ':');
    var name := if i >= 0 then line[..i] else if line == [] then "" else line[..|line| - 1];
    (Lower(name), Trim(Slice(line, i + 1, |line|)))
  }

  function HeaderEntries(lines: seq<string>): (r: seq<(string, string)>)
    ensures |r| == |lines|
  {
    seq(|lines|, i requires 0 <= i < |lines| => HeaderEntry(lines[i]))
  }

  /** The map the header lines build, each line overwriting what an earlier
      line with the same name stored. */
  function HeaderFields(lines: seq<string>): map<string, string>
  {
    Assigned(HeaderEntries(lines))
  }

  /** `parseHeader(str)`. */
  method ParseHeader(str: string) returns (fields: map<string, string>)
    ensures fields == HeaderFields(HeaderLines(str))
  {
    var lines := SplitLines(str);
    lines := lines[..|lines| - 1];
    ghost var entries := HeaderEntries(lines);
    fields := map[];
    var i := 0;
    while i < |lines|
      invariant 0 <= i <= |lines|
      invariant fields == Assigned(entries[..i])
    {
      var line := lines[i];
      var (field, val) := HeaderEntry(line);
      AssignedStep(entries, i);
      fields := fields[field := val];
      i := i + 1;
    }
    assert entries[..i] == entries;
  }

  /** A header line with a colon maps its lower-cased name, the text before
      the first colon, to the trimmed text after it. */
  lemma HeaderLineWithColon(name: string, rest: string)
    requires ':' !in name
    ensures HeaderEntry(name + ":" + rest) == (Lower(name), Trim(rest))
  {
    var line := name + ":" + rest;
    assert line[|name|] == ':';
    forall k | 0 <= k < |name| ensures line[k] != ':' {
      assert line[k] == name[k];
    }
    IndexFromExact(line, ':', 0, |name|);
    assert line[..|name|] == name;
    assert Slice(line, |name| + 1, |line|) == rest;
  }

  /** A line without a colon maps its text minus the last character to the
      whole line, trimmed. */
  lemma HeaderLineWithoutColon(line: string)
    requires ':' !in line && line != []
    ensures HeaderEntry(line) == (Lower(line[..|line| - 1]), Trim(line))
  {
    assert Slice(line, 0, |line|) == line;
  }

  /** A header block: every line followed by a CRLF. */
  function Block(lines: seq<string>): string
  {
    if lines == [] then "" else lines[0] + "\r\n" + Block(lines[1..])
  }

  /** A CRLF-terminated line comes out of the split without its CR. */
  lemma SplitLinesCRLF(l: string, rest: string)
    requires '\n' !in l
    ensures SplitLines(l + "\r\n" + rest) == [l] + SplitLines(rest)
  {
    var s := l + "\r\n" + rest;
    assert s == (l + "\r") + "\n" + rest;
    assert s[|l| + 1] == '\n';
    assert forall k :: 0 <= k < |l| + 1 ==> s[k] != '\n';
    assert IndexOf(s, '\n') == |l| + 1;
    assert s[..|l| + 1] == l + "\r";
    assert s[|l| + 2..] == rest;
    assert (l + "\r")[..|l|] == l;
  }

  /** The first line of a block comes off its split. */
  lemma BlockStep(lines: seq<string>)
    requires lines != [] && '\n' !in lines[0]
    ensures SplitLines(Block(lines)) == [lines[0]] + SplitLines(Block(lines[1..]))
  {
    SplitLinesCRLF(lines[0], Block(lines[1..]));
  }

  lemma {:induction false} SplitBlock(lines: seq<string>)
    requires forall i :: 0 <= i < |lines| ==> '\n' !in lines[i]
    ensures SplitLines(Block(lines)) == lines + [""]
  {
    if lines != [] {
      var tail := lines[1..];
      forall i | 0 <= i < |tail| ensures '\n' !in tail[i] {
        assert tail[i] == lines[i + 1];
      }
      SplitBlock(tail);
      SplitBlockStep(lines);
    }
  }

  lemma SplitBlockStep(lines: seq<string>)
    requires lines != [] && '\n' !in lines[0]
    requires SplitLines(Block(lines[1..])) == lines[1..] + [""]
    ensures SplitLines(Block(lines)) == lines + [""]
  {
    var x, tail := lines[0], lines[1..];
    assert SplitLines(Block(lines)) == [x] + SplitLines(Block(tail)) by {
      BlockStep(lines);
    }
    ConsLast(x, tail);
    assert [x] + tail == lines;
  }

  lemma ConsLast(x: string, xs: seq<string>)
    ensures [x] + (xs + [""]) == ([x] + xs) + [""]
  {
  }

  /** The lines of a CRLF-terminated block are exactly the lines it was made
      of: the final line break adds no empty entry. */
  lemma HeaderLinesOfBlock(lines: seq<string>)
    requires forall i :: 0 <= i < |lines| ==> '\n' !in lines[i]
    ensures HeaderLines(Block(lines)) == lines
  {
    SplitBlock(lines);
    assert (lines + [""])[..|lines|] == lines;
  }

  /** A name is in the map exactly when some line carries it. */
  lemma HeaderFieldsKeys(lines: seq<string>, k: string)
    ensures k in HeaderFields(lines) <==> exists i :: 0 <= i < |lines| && HeaderEntry(lines[i]).0 == k
  {
    var entries := HeaderEntries(lines);
    AssignedKeys(entries, k);
    assert forall i :: 0 <= i < |lines| ==> Keys(entries)[i] == HeaderEntry(lines[i]).0;
  }

  /** The value stored under a name is that of the last line carrying it. */
  lemma HeaderFieldsLast(lines: seq<string>, i: nat)
    requires i < |lines|
    requires forall j :: i < j < |lines| ==> HeaderEntry(lines[j]).0 != HeaderEntry(lines[i]).0
    ensures HeaderEntry(lines[i]).0 in HeaderFields(lines)
    ensures HeaderFields(lines)[HeaderEntry(lines[i]).0] == HeaderEntry(lines[i]).1
  {
    var entries := HeaderEntries(lines);
    forall j | i < j < |lines| ensures entries[j].0 != entries[i].0 {
      assert entries[j] == HeaderEntry(lines[j]);
    }
    AssignedLast(entries, i);
  }

  /** The map has at most one entry per line of the block. */
  lemma HeaderFieldsSize(str: string)
    ensures |HeaderFields(HeaderLines(str))| <= |SplitLines(str)| - 1
  {
    AssignedSize(HeaderEntries(HeaderLines(str)));
  }

  // ---------------------------------------------------------------------
  // Media types

  /** The first position at or after `i` that is not a space. */
  function SpacesFrom(s: string, i: nat): (r: nat)
    requires i <= |s|
    ensures i <= r <= |s|
    decreases |s| - i
  {
    if i < |s| && s[i] == ' ' then SpacesFrom(s, i + 1) else i
  }

  /** Where the run of spaces that ends at `j` begins, looking no further
      back than `lo`. */
  function SpacesBefore(s: string, lo: nat, j: nat): (r: nat)
    requires lo <= j <= |s|
    ensures lo <= r <= j
  {
    if lo < j && s[j - 1] == ' ' then SpacesBefore(s, lo, j - 1) else j
  }

  /** Only spaces lie between where `SpacesBefore` stops and `j`, and the
      character before that, if it is past `lo`, is not one. */
  lemma {:induction false} SpacesBeforeSpaces(s: string, lo: nat, j: nat)
    requires lo <= j <= |s|
    ensures var r := SpacesBefore(s, lo, j);
      && (forall k :: r <= k < j ==> s[k] == ' ')
      && (lo < r ==> s[r - 1] != ' ')
    decreases j
  {
    if lo < j && s[j - 1] == ' ' {
      SpacesBeforeSpaces(s, lo, j - 1);
    }
  }

  /** The pieces of the text from `start` on, split on "spaces, X, spaces" for the
      separator X: each separator is cut out with the spaces around it. */
  function SplitFrom(s: string, sep: char, start: nat): (r: seq<string>)
    requires start <= |s|
    ensures |r| >= 1
    decreases |s| - start
  {
    var j := IndexFrom(s, sep, start);
    if j < 0 then [Slice(s, start, |s|)]
    else [Slice(s, start, SpacesBefore(s, start, j))] + SplitFrom(s, sep, SpacesFrom(s, j + 1))
  }

  /** `s.split` on the pattern "spaces, X, spaces" for the separator X. */
  function SplitSpaced(s: string, sep: char): (r: seq<string>)
    ensures |r| >= 1
  {
    SplitFrom(s, sep, 0)
  }

  /** `type(str)`: the text before the first `;` without the spaces in front
      of it; a string without `;` is the whole media type. */
  function Type(s: string): (r: string)
    ensures ';' !in s ==> r == s
    ensures ';' in s ==> && |r| <= IndexOf(s, ';') && r == s[..|r|]
                         && (forall i :: |r| <= i < IndexOf(s, ';') ==> s[i] == ' ')
                         && (r == [] || r[|r| - 1] != ' ')
  {
    SpacesBeforeSpaces(s, 0, if ';' in s then IndexOf(s, ';') else 0);
    SplitSpaced(s, ';')[0]
  }

  /** The name and, when there is one, the value of a `name=value` segment:
      the first two pieces around `=`. */
  function ParamPair(segment: string): (string, Option<string>)
  {
    var parts := SplitSpaced(segment, '=');
    (parts[0], if |parts| > 1 then Some(parts[1]) else None)
  }

  /** The parameters of a list of segments, folded from the left; a segment
      counts only when its name and its value are both non-empty. */
  function ParamsOf(segments: seq<string>): map<string, string>
  {
    if segments == [] then map[]
    else
      var acc := ParamsOf(segments[..|segments| - 1]);
      var (key, val) := ParamPair(segments[|segments| - 1]);
      if key != "" && val.Some? && val.value != "" then acc[key := val.value] else acc
  }

  /** `params(str)`. */
  function Params(s: string): map<string, string>
  {
    ParamsOf(SplitSpaced(s, ';'))
  }

  /** A piece with no space at either end. */
  predicate Unpadded(x: string)
  {
    x == [] || (x[0] != ' ' && x[|x| - 1] != ' ')
  }

  lemma IndexFromExact(s: string, c: char, i: nat, j: nat)
    requires i <= j < |s| && s[j] == c
    requires forall k :: i <= k < j ==> s[k] != c
    ensures IndexFrom(s, c, i) == j
  {
  }

  lemma {:induction false} SpacesFromExact(s: string, i: nat, n: nat)
    requires i <= n <= |s|
    requires forall k :: i <= k < n ==> s[k] == ' '
    requires n < |s| ==> s[n] != ' '
    ensures SpacesFrom(s, i) == n
    decreases n - i
  {
    if i < n {
      SpacesFromExact(s, i + 1, n);
    }
  }

  /** Pieces that a join on `sep` can be split back into. */
  predicate Separable(xs: seq<string>, sep: char)
  {
    forall i :: 0 <= i < |xs| ==> sep !in xs[i] && Unpadded(xs[i])
  }

  /** `n` spaces. */
  function Pad(n: nat): (r: string)
    ensures |r| == n && forall i :: 0 <= i < n ==> r[i] == ' '
  {
    seq(n, _ => ' ')
  }

  /** A separator with `before` spaces in front of it and `after` behind it:
      one of the texts the pattern "spaces, X, spaces" matches. */
  function Glue(sep: char, before: nat, after: nat): string
  {
    Pad(before) + [sep] + Pad(after)
  }

  /** The pieces joined by the separator, the one between `xs[i]` and
      `xs[i + 1]` with `gs[i].0` spaces in front of it and `gs[i].1` behind
      it. */
  function Glued(xs: seq<string>, sep: char, gs: seq<(nat, nat)>): string
    requires |xs| == |gs| + 1
  {
    if gs == [] then xs[0]
    else xs[0] + Glue(sep, gs[0].0, gs[0].1) + Glued(xs[1..], sep, gs[1..])
  }

  /** No piece between two separators is empty where the second separator
      has spaces in front of it: those spaces would run into the first
      separator's. */
  predicate Gapless(xs: seq<string>, gs: seq<(nat, nat)>)
    requires |xs| == |gs| + 1
  {
    forall i :: 1 <= i < |gs| ==> gs[i].0 == 0 || xs[i] != []
  }

  lemma JoinStep(xs: seq<string>, sep: char, gs: seq<(nat, nat)>)
    requires |xs| == |gs| + 1 && |xs| >= 2 && sep != ' ' && Separable(xs, sep) && Gapless(xs, gs)
    ensures Separable(xs[1..], sep) && Gapless(xs[1..], gs[1..])
    ensures Glued(xs, sep, gs)
         == xs[0] + (Pad(gs[0].0) + ([sep] + (Pad(gs[0].1) + Glued(xs[1..], sep, gs[1..]))))
    ensures var j := Glued(xs[1..], sep, gs[1..]); j == [] || j[0] != ' '
  {
    JoinTailSeparable(xs, sep, gs);
    JoinTailHead(xs, sep, gs);
    GlueAssoc(xs[0], Pad(gs[0].0), sep, Pad(gs[0].1), Glued(xs[1..], sep, gs[1..]));
  }

  lemma JoinTailSeparable(xs: seq<string>, sep: char, gs: seq<(nat, nat)>)
    requires |xs| == |gs| + 1 && |xs| >= 2 && Separable(xs, sep) && Gapless(xs, gs)
    ensures Separable(xs[1..], sep) && Gapless(xs[1..], gs[1..])
  {
    var tail, gtail := xs[1..], gs[1..];
    forall i | 0 <= i < |tail| ensures sep !in tail[i] && Unpadded(tail[i]) {
      assert tail[i] == xs[i + 1];
    }
    forall i | 1 <= i < |gtail| ensures gtail[i].0 == 0 || tail[i] != [] {
      assert tail[i] == xs[i + 1] && gtail[i] == gs[i + 1];
    }
  }

  /** The rest of a glued text after its first glue does not start with a
      space. */
  lemma JoinTailHead(xs: seq<string>, sep: char, gs: seq<(nat, nat)>)
    requires |xs| == |gs| + 1 && |xs| >= 2 && sep != ' ' && Separable(xs, sep) && Gapless(xs, gs)
    ensures var j := Glued(xs[1..], sep, gs[1..]); j == [] || j[0] != ' '
  {
    var tail, gtail := xs[1..], gs[1..];
    assert tail[0] == xs[1] && Unpadded(xs[1]);
    if gtail != [] {
      var g := Glue(sep, gtail[0].0, gtail[0].1);
      var j := Glued(tail, sep, gtail);
      assert j == xs[1] + g + Glued(tail[1..], sep, gtail[1..]);
      if xs[1] == [] {
        assert gs[1].0 == 0;
        assert g[0] == sep;
      } else {
        assert j[0] == xs[1][0];
      }
    }
  }

  lemma GlueAssoc(x: string, b: string, sep: char, a: string, j: string)
    ensures x + (b + [sep] + a) + j == x + (b + ([sep] + (a + j)))
  {
  }

  /** The split at a separator found at `j`, the piece before it being `x`
      and the spaces after it ending at `m`. */
  lemma SplitFromPiece(s: string, sep: char, start: nat, j: nat, x: string, m: nat)
    requires start <= j < |s| && IndexFrom(s, sep, start) == j
    requires start + |x| <= j && SpacesBefore(s, start, j) == start + |x|
    requires Slice(s, start, start + |x|) == x
    requires SpacesFrom(s, j + 1) == m
    ensures SplitFrom(s, sep, start) == [x] + SplitFrom(s, sep, m)
  {
  }

  /** Where a run of spaces that ends at `j` begins. */
  lemma {:induction false} SpacesBeforeExact(s: string, lo: nat, n: nat, j: nat)
    requires lo <= n <= j <= |s|
    requires forall k :: n <= k < j ==> s[k] == ' '
    requires lo < n ==> s[n - 1] != ' '
    ensures SpacesBefore(s, lo, j) == n
    decreases j
  {
    if n < j {
      SpacesBeforeExact(s, lo, n, j - 1);
    }
  }

  /** A slice that is a concatenation splits into two slices. */
  lemma SliceSplit(s: string, i: nat, a: string, b: string)
    requires i <= |s| && Slice(s, i, |s|) == a + b
    ensures i + |a| <= |s| && Slice(s, i, i + |a|) == a && Slice(s, i + |a|, |s|) == b
  {
    var u := Slice(s, i, |s|);
    forall k | 0 <= k < |a| ensures Slice(s, i, i + |a|)[k] == a[k] {
      assert u[k] == a[k];
    }
    forall k | 0 <= k < |b| ensures Slice(s, i + |a|, |s|)[k] == b[k] {
      assert u[|a| + k] == b[k];
    }
  }

  /** Text without the separator leaves nothing to split. */
  lemma NoSeparatorFrom(s: string, start: nat, x: string, sep: char)
    requires start <= |s| && Slice(s, start, |s|) == x && sep !in x
    ensures IndexFrom(s, sep, start) == -1
  {
    forall k | start <= k < |s| ensures s[k] != sep {
      assert Slice(s, start, |s|)[k - start] == x[k - start];
    }
  }

  /** Text without the separator splits into itself alone. */
  lemma SplitFromWhole(s: string, start: nat, x: string, sep: char)
    requires start <= |s| && Slice(s, start, |s|) == x && sep !in x
    ensures SplitFrom(s, sep, start) == [x]
  {
    NoSeparatorFrom(s, start, x, sep);
  }

  /** A piece with no space at its end, spaces, then the separator. */
  lemma PieceAt(s: string, start: nat, x: string, sep: char, pre: string, more: string)
    requires start <= |s| && Slice(s, start, |s|) == x + (pre + ([sep] + more))
    requires sep !in x && sep != ' ' && (x == [] || x[|x| - 1] != ' ')
    requires forall k :: 0 <= k < |pre| ==> pre[k] == ' '
    ensures var i, j := start + |x|, start + |x| + |pre|;
      && j < |s| && IndexFrom(s, sep, start) == j && SpacesBefore(s, start, j) == i
      && Slice(s, start, i) == x && Slice(s, j + 1, |s|) == more
  {
    var i, j := start + |x|, start + |x| + |pre|;
    SliceSplit(s, start, x, pre + ([sep] + more));
    SliceSplit(s, i, pre, [sep] + more);
    var w, u := Slice(s, start, i), Slice(s, i, j);
    assert s[j] == sep by { assert Slice(s, j, |s|)[0] == sep; }
    forall k | start <= k < i ensures s[k] != sep {
      assert w[k - start] == x[k - start];
    }
    forall k | i <= k < j ensures s[k] == ' ' {
      assert u[k - i] == pre[k - i];
    }
    IndexFromExact(s, sep, start, j);
    if start < i {
      assert w[|x| - 1] == x[|x| - 1];
    }
    SpacesBeforeExact(s, start, i, j);
    SliceSplit(s, j, [sep], more);
  }

  /** Spaces, then text that does not start with one. */
  lemma PadAt(s: string, i: nat, pad: string, rest: string)
    requires i <= |s| && Slice(s, i, |s|) == pad + rest
    requires forall k :: 0 <= k < |pad| ==> pad[k] == ' '
    requires rest == [] || rest[0] != ' '
    ensures i + |pad| <= |s| && SpacesFrom(s, i) == i + |pad| && Slice(s, i + |pad|, |s|) == rest
  {
    var m := i + |pad|;
    SliceSplit(s, i, pad, rest);
    var w := Slice(s, i, m);
    forall k | i <= k < m ensures s[k] == ' ' {
      assert w[k - i] == pad[k - i];
    }
    if m < |s| {
      assert Slice(s, m, |s|)[0] == rest[0];
    }
    SpacesFromExact(s, i, m);
  }

  /** Splitting the text from `start` on, when it is a join of separable
      pieces, gives the pieces back. */
  lemma {:induction false} SplitFromJoin(s: string, start: nat, xs: seq<string>, sep: char, gs: seq<(nat, nat)>)
    requires start <= |s| && |xs| == |gs| + 1 && sep != ' '
    requires Separable(xs, sep) && Gapless(xs, gs)
    requires Slice(s, start, |s|) == Glued(xs, sep, gs)
    ensures SplitFrom(s, sep, start) == xs
    decreases |xs|
  {
    if gs == [] {
      SplitFromWhole(s, start, xs[0], sep);
    } else {
      var x, tail := xs[0], xs[1..];
      var j := start + |x| + gs[0].0;
      var m := j + 1 + gs[0].1;
      JoinSliceStep(s, start, xs, sep, gs);
      SplitFromPiece(s, sep, start, j, x, m);
      SplitFromJoin(s, m, tail, sep, gs[1..]);
      assert xs == [x] + tail;
    }
  }

  /** The first piece, the separator and the spaces around it come off the
      front of a glued text. */
  lemma JoinSliceStep(s: string, start: nat, xs: seq<string>, sep: char, gs: seq<(nat, nat)>)
    requires start <= |s| && |xs| == |gs| + 1 && |xs| >= 2 && sep != ' '
    requires Separable(xs, sep) && Gapless(xs, gs)
    requires Slice(s, start, |s|) == Glued(xs, sep, gs)
    ensures var x := xs[0];
      var j, m := start + |x| + gs[0].0, start + |x| + gs[0].0 + 1 + gs[0].1;
      && j < |s| && IndexFrom(s, sep, start) == j
      && SpacesBefore(s, start, j) == start + |x| && Slice(s, start, start + |x|) == x
      && m <= |s| && SpacesFrom(s, j + 1) == m && Slice(s, m, |s|) == Glued(xs[1..], sep, gs[1..])
    ensures Separable(xs[1..], sep) && Gapless(xs[1..], gs[1..])
  {
    var x, rest := xs[0], Glued(xs[1..], sep, gs[1..]);
    var before, after := gs[0].0, gs[0].1;
    var j := start + |x| + before;
    JoinStep(xs, sep, gs);
    assert Unpadded(x);
    PieceAt(s, start, x, sep, Pad(before), Pad(after) + rest);
    PadAt(s, j + 1, Pad(after), rest);
  }

  /** Splitting on "spaces, separator, spaces" undoes joining with the
      separator and, at each separator, any number of spaces on either side
      of it. */
  lemma SplitSpacedJoin(xs: seq<string>, sep: char, gs: seq<(nat, nat)>)
    requires |xs| == |gs| + 1 && sep != ' '
    requires Separable(xs, sep) && Gapless(xs, gs)
    ensures SplitSpaced(Glued(xs, sep, gs), sep) == xs
  {
    var s := Glued(xs, sep, gs);
    assert Slice(s, 0, |s|) == s;
    SplitFromJoin(s, 0, xs, sep, gs);
  }

  /** `name=value` for each parameter, with the spaces `eqs` gives around
      each `=`. */
  function ParamStrings(ps: seq<(string, string)>, eqs: seq<(nat, nat)>): (r: seq<string>)
    requires |eqs| == |ps|
    ensures |r| == |ps|
  {
    if ps == [] then []
    else
      var n := |ps| - 1;
      ParamStrings(ps[..n], eqs[..n]) + [Glued([ps[n].0, ps[n].1], '=', [eqs[n]])]
  }

  /** A parameter as the grammar writes it: a non-empty name and value with
      no `;`, `=` or surrounding space. */
  predicate GoodParam(p: (string, string))
  {
    && p.0 != [] && p.1 != []
    && ';' !in p.0 && ';' !in p.1 && '=' !in p.0 && '=' !in p.1
    && Unpadded(p.0) && Unpadded(p.1)
  }

  lemma ParamPairOf(p: (string, string), e: (nat, nat))
    requires GoodParam(p)
    ensures ParamPair(Glued([p.0, p.1], '=', [e])) == (p.0, Some(p.1))
  {
    SplitSpacedJoin([p.0, p.1], '=', [e]);
  }

  /** Two pieces glued once. */
  lemma GluedPair(a: string, b: string, sep: char, e: (nat, nat))
    ensures Glued([a, b], sep, [e]) == a + Glue(sep, e.0, e.1) + b
  {
    assert [a, b][1..] == [b];
  }

  /** A written parameter is non-empty, holds no `;` and has no space at
      either end. */
  lemma ParamStringGood(p: (string, string), e: (nat, nat))
    requires GoodParam(p)
    ensures var w := Glued([p.0, p.1], '=', [e]);
      w != [] && ';' !in w && Unpadded(w)
  {
    var g := Glue('=', e.0, e.1);
    var w := Glued([p.0, p.1], '=', [e]);
    GluedPair(p.0, p.1, '=', e);
    assert ';' !in g;
    assert w[0] == p.0[0] && w[|w| - 1] == p.1[|p.1| - 1];
  }

  lemma {:induction false} ParamStringsGood(ps: seq<(string, string)>, eqs: seq<(nat, nat)>)
    requires |eqs| == |ps|
    requires forall i :: 0 <= i < |ps| ==> GoodParam(ps[i])
    ensures forall i :: 0 <= i < |ps| ==>
      var w := ParamStrings(ps, eqs)[i]; w != [] && ';' !in w && Unpadded(w)
  {
    if ps != [] {
      var n := |ps| - 1;
      ParamStringsGood(ps[..n], eqs[..n]);
      ParamStringGood(ps[n], eqs[n]);
    }
  }

  lemma {:induction false} ParamsOfStrings(t: string, ps: seq<(string, string)>, eqs: seq<(nat, nat)>)
    requires |eqs| == |ps|
    requires '=' !in t && Unpadded(t)
    requires forall i :: 0 <= i < |ps| ==> GoodParam(ps[i])
    ensures ParamsOf([t] + ParamStrings(ps, eqs)) == Assigned(ps)
  {
    if ps == [] {
      assert ([t] + [])[..0] == [];
      SplitSpacedJoin([t], '=', []);
    } else {
      var n := |ps| - 1;
      var segs := [t] + ParamStrings(ps, eqs);
      assert segs[..|segs| - 1] == [t] + ParamStrings(ps[..n], eqs[..n]);
      ParamsOfStrings(t, ps[..n], eqs[..n]);
      ParamPairOf(ps[n], eqs[n]);
    }
  }

  /** The segments of such a media type can be split apart again, whatever
      the spaces around each `;`. */
  lemma SegmentsSeparable(t: string, ps: seq<(string, string)>, eqs: seq<(nat, nat)>, semis: seq<(nat, nat)>)
    requires |eqs| == |ps| && |semis| == |ps|
    requires ';' !in t && Unpadded(t)
    requires forall i :: 0 <= i < |ps| ==> GoodParam(ps[i])
    ensures Separable([t] + ParamStrings(ps, eqs), ';') && Gapless([t] + ParamStrings(ps, eqs), semis)
  {
    var segs := [t] + ParamStrings(ps, eqs);
    ParamStringsGood(ps, eqs);
    forall i | 0 <= i < |segs| ensures ';' !in segs[i] && Unpadded(segs[i]) && (i > 0 ==> segs[i] != []) {
      if i > 0 { assert segs[i] == ParamStrings(ps, eqs)[i - 1]; }
    }
  }

  /** A media type written as `type;name=value;…`, with any number of spaces
      on either side of each `;` (`semis`) and of each `=` (`eqs`), each
      separator its own, gives back its type and its parameters, the last of
      a repeated name winning; a type with no parameters has none. */
  lemma MediaTypeRoundTrip(t: string, ps: seq<(string, string)>, eqs: seq<(nat, nat)>, semis: seq<(nat, nat)>)
    requires |eqs| == |ps| && |semis| == |ps|
    requires ';' !in t && '=' !in t && Unpadded(t)
    requires forall i :: 0 <= i < |ps| ==> GoodParam(ps[i])
    ensures Type(Glued([t] + ParamStrings(ps, eqs), ';', semis)) == t
    ensures Params(Glued([t] + ParamStrings(ps, eqs), ';', semis)) == Assigned(ps)
  {
    SegmentsSeparable(t, ps, eqs, semis);
    SplitSpacedJoin([t] + ParamStrings(ps, eqs), ';', semis);
    ParamsOfStrings(t, ps, eqs);
  }

  lemma GlueExamples()
    ensures Glue(';', 0, 1) == "; " && Glue('=', 0, 0) == "=" && Glue('=', 2, 1) == "  = "
  {
    assert Pad(0) == "" && Pad(1) == " " && Pad(2) == "  ";
  }

  /** `type` of the two media types written out: the part before the
      parameters. */
  lemma TypeExamples()
    ensures Type("application/json; charset=utf-8") == "application/json"
    ensures Type("application/json") == "application/json"
  {
    var t: string, p: (string, string) := "application/json", ("charset", "utf-8");
    assert GoodParam(p);
    GlueExamples();
    assert ParamStrings([p], [(0, 0)]) == ["charset=utf-8"] by {
      var eqs: seq<(nat, nat)> := [(0, 0)];
      assert [p][..0] == [] && eqs[..0] == [];
      GluedPair(p.0, p.1, '=', (0, 0));
      assert p.0 + "=" + p.1 == "charset=utf-8";
    }
    GluedPair(t, "charset=utf-8", ';', (0, 1));
    assert Glued([t] + ["charset=utf-8"], ';', [(0, 1)]) == "application/json; charset=utf-8";
    MediaTypeRoundTrip(t, [p], [(0, 0)], [(0, 1)]);
  }

  /** The parameters of the example below, written out. */
  lemma ParamsExampleStrings(p: (string, string), q: (string, string))
    requires p == ("charset", "utf-8") && q == ("foo", "bar")
    ensures ParamStrings([p, q], [(0, 0), (2, 1)]) == ["charset=utf-8", "foo  = bar"]
  {
    var ps := [p, q];
    var eqs: seq<(nat, nat)> := [(0, 0), (2, 1)];
    GlueExamples();
    assert ps[..1] == [p] && eqs[..1] == [(0, 0)];
    assert [p][..0] == [] && eqs[..1][..0] == [];
    assert ParamStrings([p], [(0, 0)]) == [Glued([p.0, p.1], '=', [(0, 0)])];
    GluedPair(p.0, p.1, '=', (0, 0));
    GluedPair(q.0, q.1, '=', (2, 1));
    assert p.0 + "=" + p.1 == "charset=utf-8";
    assert q.0 + "  = " + q.1 == "foo  = bar";
  }

  /** Three pieces glued twice. */
  lemma GluedThree(a: string, b: string, c: string, sep: char, e: (nat, nat), f: (nat, nat))
    ensures Glued([a, b, c], sep, [e, f]) == a + Glue(sep, e.0, e.1) + (b + Glue(sep, f.0, f.1) + c)
  {
    assert [a, b, c][1..] == [b, c];
    GluedPair(b, c, sep, f);
  }

  lemma ParamsExampleText(t: string, p: (string, string), q: (string, string))
    requires t == "application/json" && p == ("charset", "utf-8") && q == ("foo", "bar")
    ensures Glued([t] + ParamStrings([p, q], [(0, 0), (2, 1)]), ';', [(0, 1), (0, 1)])
         == "application/json; charset=utf-8; foo  = bar"
  {
    var a, b := "charset=utf-8", "foo  = bar";
    assert [t] + ParamStrings([p, q], [(0, 0), (2, 1)]) == [t, a, b] by {
      ParamsExampleStrings(p, q);
    }
    assert Glue(';', 0, 1) == "; " by {
      GlueExamples();
    }
    GluedThree(t, a, b, ';', (0, 1), (0, 1));
    ParamsExampleConcat();
  }

  lemma ParamsExampleConcat()
    ensures "application/json" + "; " + ("charset=utf-8" + "; " + "foo  = bar") == "application/json; charset=utf-8; foo  = bar"
  {
  }

  lemma ParamsExampleTwo(t: string, p: (string, string), q: (string, string))
    requires t == "application/json" && p == ("charset", "utf-8") && q == ("foo", "bar")
    ensures Params("application/json; charset=utf-8; foo  = bar") == Assigned([p, q])
  {
    assert GoodParam(p) && GoodParam(q);
    ParamsExampleText(t, p, q);
    MediaTypeRoundTrip(t, [p, q], [(0, 0), (2, 1)], [(0, 1), (0, 1)]);
  }

  lemma ParamsExampleMap(p: (string, string), q: (string, string))
    requires p == ("charset", "utf-8") && q == ("foo", "bar")
    ensures Assigned([p, q]) == map["charset" := "utf-8", "foo" := "bar"]
  {
    var ps := [p, q];
    assert ps[..1] == [p] && [p][..0] == [];
    assert Assigned([p]) == map["charset" := "utf-8"];
    assert Assigned(ps) == Assigned([p])[q.0 := q.1];
  }

  lemma ParamsExampleBare(t: string)
    requires t == "application/json"
    ensures Params(t) == map[]
  {
    MediaTypeRoundTrip(t, [], [], []);
    assert Glued([t], ';', []) == t;
  }

  /** `params` of a media type whose second parameter has two spaces before
      its `=` and one after: both parameters, the spaces stripped; and no
      parameters for a bare type. */
  lemma ParamsExamples()
    ensures Params("application/json; charset=utf-8; foo  = bar") == map["charset" := "utf-8", "foo" := "bar"]
    ensures Params("application/json") == map[]
  {
    var t: string, p: (string, string), q: (string, string) := "application/json", ("charset", "utf-8"), ("foo", "bar");
    ParamsExampleTwo(t, p, q);
    ParamsExampleMap(p, q);
    ParamsExampleBare(t);
  }

  /** Only the text up to a second `=` is the value, whatever the spaces
      around either `=`. */
  lemma ParamValueEndsAtSecondEquals(name: string, val: string, more: string, gs: seq<(nat, nat)>)
    requires |gs| == 2
    requires GoodParam((name, val)) && '=' !in more && Unpadded(more)
    ensures ParamPair(Glued([name, val, more], '=', gs)) == (name, Some(val))
  {
    SplitSpacedJoin([name, val, more], '=', gs);
  }
}
