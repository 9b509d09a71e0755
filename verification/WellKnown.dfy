/** well_known_core_handler without a filter: the link-format listing, cut to a window.

    The handler walks over the whole listing with a position `strpos` in it and a position `bufpos` in the
    buffer. `bufpos` counts what snprintf would have written and so may pass the preferred size. */
module WellKnown {
  import opened OptionFormat

  datatype Resource = Resource(url: Bytes, attributes: Bytes)

  const COMMA: Byte := 0x2C
  const LESS: Byte := 0x3C
  const SLASH: Byte := 0x2F
  const GREATER: Byte := 0x3E
  const SEMICOLON: Byte := 0x3B

  function Attributes(r: Resource): Bytes {
    if r.attributes == [] then [] else [SEMICOLON] + r.attributes
  }

  function Link(r: Resource): (l: Bytes)
    ensures |l| >= 3
  {
    [LESS, SLASH] + r.url + [GREATER] + Attributes(r)
  }

  /** The listing, separated by commas, behind what comes before. */
  function Listing(before: Bytes, resources: seq<Resource>): (l: Bytes)
    decreases |resources|
    ensures |before| <= |l| && l[..|before|] == before
  {
    if resources == [] then before
    else
      var next := (if before == [] then [] else before + [COMMA]) + Link(resources[0]);
      var l := Listing(next, resources[1..]);
      assert before == next[..|before|] == l[..|next|][..|before|];
      l
  }

  function Least(a: nat, b: nat): nat {
    if a < b then a else b
  }

  /** The bytes of a text from `offset` on, at most `size` of them. */
  function Window(t: Bytes, offset: nat, size: nat): (w: Bytes)
    ensures |w| <= size
  {
    if |t| <= offset then [] else t[offset..Least(|t|, offset + size)]
  }

  /** What the handler has in the buffer when it has walked over `text`. */
  ghost predicate Walked(data: Bytes, text: Bytes, bufpos: nat, offset: nat, size: nat) {
    bufpos <= |data| && bufpos == |Window(text, offset, size)| && data[..bufpos] == Window(text, offset, size)
  }

  lemma WindowAppend(t: Bytes, more: Bytes, offset: nat, size: nat)
    ensures var w := Window(t, offset, size);
            var skip := if |t| >= offset then 0 else Least(offset - |t|, |more|);
            Window(t + more, offset, size) == w + more[skip..][..Least(|more| - skip, size - |w|)]
  {
    var end := Least(|t + more|, offset + size);
    if |t| <= offset {
      assert Window(t, offset, size) == [];
      if offset < |t + more| {
        CutBehind(t, more, offset, end);
      }
    } else if offset + size <= |t| {
      assert (t + more)[offset..end] == t[offset..end];
    } else {
      CutAcross(t, more, offset, end);
      assert more[0..] == more && t[offset..|t|] == t[offset..];
    }
  }

  /** Slices of two texts put together: behind the first one, and across the end of it. */
  lemma CutBehind(t: Bytes, more: Bytes, i: nat, j: nat)
    requires |t| <= i <= j <= |t + more|
    ensures (t + more)[i..j] == more[i - |t|..][..j - i]
  {
    var cut := (t + more)[i..j];
    forall k | 0 <= k < j - i ensures cut[k] == more[i - |t|..][..j - i][k] {
      assert cut[k] == (t + more)[i + k] == more[i + k - |t|];
    }
  }

  lemma CutAcross(t: Bytes, more: Bytes, i: nat, j: nat)
    requires i <= |t| <= j <= |t + more|
    ensures (t + more)[i..j] == t[i..] + more[..j - |t|]
  {
    var cut, joined := (t + more)[i..j], t[i..] + more[..j - |t|];
    forall k | 0 <= k < j - i ensures cut[k] == joined[k] {
      assert cut[k] == (t + more)[i + k];
    }
  }

  /** A full window stays as it is. */
  lemma WindowFull(t: Bytes, more: Bytes, offset: nat, size: nat)
    requires |t| >= offset + size
    ensures Window(t + more, offset, size) == Window(t, offset, size)
  {
  }

  /** One character of the listing. */
  method PutChar(c: Byte, buffer: array<Byte>, strpos: nat, bufpos: nat, size: nat, offset: nat, ghost text: Bytes)
    returns (newStrpos: nat, newBufpos: nat)
    requires size < buffer.Length && strpos == |text| && Walked(buffer[..], text, bufpos, offset, size)
    modifies buffer
    ensures newStrpos == strpos + 1 && Walked(buffer[..], text + [c], newBufpos, offset, size)
  {
    newBufpos := bufpos;
    ghost var was := buffer[..];
    WindowAppend(text, [c], offset, size);
    if strpos >= offset && bufpos < size {
      buffer[newBufpos] := c;
      newBufpos := newBufpos + 1;
      assert buffer[..newBufpos] == was[..bufpos] + [c];
      assert [c][0..][..1] == [c];
    } else {
      assert strpos < offset ==> [c][Least(offset - strpos, 1)..] == [];
    }
    newStrpos := strpos + 1;
  }

  /** What snprintf stores: the bytes and a NUL. */
  method Print(buffer: array<Byte>, at: nat, s: Bytes)
    requires at + |s| < buffer.Length
    modifies buffer
    ensures buffer[..at + |s|] == old(buffer[..at]) + s
  {
    ghost var was := buffer[..at];
    forall i | 0 <= i < |s| {
      buffer[at + i] := s[i];
    }
    buffer[at + |s|] := 0;
    forall i | 0 <= i < at + |s| ensures buffer[i] == (was + s)[i] {
      assert i >= at ==> buffer[at + (i - at)] == s[i - at];
    }
  }

  /** snprintf of a string, with its bytes before the offset skipped; the answer says to leave the loop. */
  method PutString(s: Bytes, buffer: array<Byte>, strpos: nat, bufpos: nat, size: nat, offset: nat, ghost text: Bytes)
    returns (newStrpos: nat, newBufpos: nat, full: bool)
    requires 0 < size < buffer.Length && strpos == |text| && Walked(buffer[..], text, bufpos, offset, size)
    modifies buffer
    ensures full <==> |text + s| >= offset + size
    ensures !full ==> newStrpos == strpos + |s| && Walked(buffer[..], text + s, newBufpos, offset, size)
    ensures full ==> newBufpos >= size && buffer[..size] == Window(text + s, offset, size) && newStrpos == strpos
  {
    newStrpos, newBufpos, full := strpos, bufpos, false;
    WindowAppend(text, s, offset, size);
    if strpos + |s| > offset {
      var skip := if offset > strpos then offset - strpos else 0;
      var n := Least(|s| - skip, size - bufpos);
      Print(buffer, bufpos, s[skip..][..n]);
      newBufpos := bufpos + (|s| - skip);
      if newBufpos >= size {
        full := true;
        return;
      }
    }
    newStrpos := strpos + |s|;
  }

  function Separated(text: Bytes): Bytes {
    if text == [] then [] else text + [COMMA]
  }

  /** The walk over a resource leaves the loop: its last string reaches the end of the window. */
  predicate Breaks(text: Bytes, r: Resource, offset: nat, size: nat) {
    var end := |Separated(text) + Link(r)|;
    if r.attributes == [] then end > offset + size else end >= offset + size
  }

  /** One resource of the listing. */
  method PutResource(r: Resource, buffer: array<Byte>, strpos: nat, bufpos: nat, size: nat, offset: nat,
      ghost text: Bytes)
    returns (newStrpos: nat, newBufpos: nat, full: bool)
    requires 0 < size < buffer.Length && strpos == |text| && Walked(buffer[..], text, bufpos, offset, size)
    modifies buffer
    ensures full <==> Breaks(text, r, offset, size)
    ensures !full ==> newStrpos == |Separated(text) + Link(r)|
                      && Walked(buffer[..], Separated(text) + Link(r), newBufpos, offset, size)
    ensures full ==> newBufpos >= size && buffer[..size] == Window(Separated(text) + Link(r), offset, size)
  {
    hide Walked, Window;
    newStrpos, newBufpos := strpos, bufpos;
    ghost var t := text;
    if strpos > 0 {
      newStrpos, newBufpos := PutChar(COMMA, buffer, newStrpos, newBufpos, size, offset, t);
      t := t + [COMMA];
    }
    newStrpos, newBufpos := PutChar(LESS, buffer, newStrpos, newBufpos, size, offset, t);
    t := t + [LESS];
    newStrpos, newBufpos := PutChar(SLASH, buffer, newStrpos, newBufpos, size, offset, t);
    t := t + [SLASH];
    newStrpos, newBufpos, full := PutString(r.url, buffer, newStrpos, newBufpos, size, offset, t);
    t := t + r.url;
    assert t == Separated(text) + [LESS, SLASH] + r.url;
    LinkSplits(text, r);
    if full {
      WindowFull(t, [GREATER] + Attributes(r), offset, size);
      return;
    }
    newStrpos, newBufpos, full := PutRest(r, buffer, newStrpos, newBufpos, size, offset, t);
  }

  lemma LinkSplits(text: Bytes, r: Resource)
    ensures Separated(text) + Link(r) == Separated(text) + [LESS, SLASH] + r.url + ([GREATER] + Attributes(r))
  {
  }

  /** What follows the url, and the check at the end of a resource. */
  method PutRest(r: Resource, buffer: array<Byte>, strpos: nat, bufpos: nat, size: nat, offset: nat, ghost text: Bytes)
    returns (newStrpos: nat, newBufpos: nat, full: bool)
    requires 0 < size < buffer.Length && strpos == |text| < offset + size
             && Walked(buffer[..], text, bufpos, offset, size)
    modifies buffer
    ensures var whole := text + ([GREATER] + Attributes(r));
            && (full <==> if r.attributes == [] then |whole| > offset + size else |whole| >= offset + size)
            && (!full ==> newStrpos == |whole| && Walked(buffer[..], whole, newBufpos, offset, size))
            && (full ==> newBufpos >= size && buffer[..size] == Window(whole, offset, size))
  {
    hide Walked, Window;
    full := false;
    newStrpos, newBufpos := PutChar(GREATER, buffer, strpos, bufpos, size, offset, text);
    ghost var t := text + [GREATER];
    assert t + [] == t;
    if r.attributes != [] {
      newStrpos, newBufpos := PutChar(SEMICOLON, buffer, newStrpos, newBufpos, size, offset, t);
      t := t + [SEMICOLON];
      newStrpos, newBufpos, full := PutString(r.attributes, buffer, newStrpos, newBufpos, size, offset, t);
      t := t + r.attributes;
      if full {
        assert t == text + ([GREATER] + Attributes(r));
        return;
      }
    }
    assert t == text + ([GREATER] + Attributes(r));
    BufposBound(buffer[..], t, newBufpos, offset, size);
    full := newBufpos >= size && newStrpos - newBufpos > offset;
  }

  lemma BufposBound(data: Bytes, text: Bytes, bufpos: nat, offset: nat, size: nat)
    requires Walked(data, text, bufpos, offset, size)
    ensures bufpos <= |text| && bufpos <= size
    ensures |text| <= offset + size ==> |text| - bufpos <= offset || bufpos < size
  {
  }

  /** The whole listing has been delivered with this window: its last string ended inside it, or its last
      closing bracket at its edge. */
  predicate Complete(resources: seq<Resource>, offset: nat, size: nat) {
    resources == [] ||
    var total := |Listing([], resources)|;
    if resources[|resources| - 1].attributes == [] then total <= offset + size else total < offset + size
  }

  lemma ListingNext(before: Bytes, resources: seq<Resource>, i: nat)
    requires i < |resources|
    ensures Listing(before, resources[i..]) == Listing(Separated(before) + Link(resources[i]), resources[i + 1..])
  {
    assert resources[i..][0] == resources[i] && resources[i..][1..] == resources[i + 1..];
    assert (if before == [] then [] else before + [COMMA]) == Separated(before);
  }

  /** A listing that goes on is longer. */
  lemma ListingLonger(before: Bytes, resources: seq<Resource>)
    requires resources != [] && before != []
    ensures |Listing(before, resources)| > |before| + 1
  {
  }

  lemma ListingPrefix(before: Bytes, resources: seq<Resource>) returns (more: Bytes)
    ensures Listing(before, resources) == before + more
  {
    more := Listing(before, resources)[|before|..];
  }

  /** well_known_core_handler: the window of the listing, and -1 for the offset once it is complete. */
  method Handler(resources: seq<Resource>, buffer: array<Byte>, preferredSize: nat, offset: nat)
    returns (bufpos: nat, newOffset: int, badOption: bool)
    requires 0 < preferredSize < buffer.Length
    modifies buffer
    ensures buffer[..Least(bufpos, preferredSize)] == Window(Listing([], resources), offset, preferredSize)
    ensures newOffset == if Complete(resources, offset, preferredSize) then -1 else offset + preferredSize
    ensures badOption <==> resources != [] && |Listing([], resources)| <= offset
    ensures bufpos == 0 <==> |Listing([], resources)| <= offset
    ensures newOffset == -1 ==> bufpos <= preferredSize
  {
    var strpos := 0;
    bufpos := 0;
    ghost var text: Bytes := [];
    assert resources[0..] == resources;
    assert Walked(buffer[..], text, bufpos, offset, preferredSize);
    var i := 0;
    var full := false;
    while i < |resources| && !full
      invariant i <= |resources| && strpos == |text|
      invariant i > 0 <==> text != []
      invariant Listing([], resources) == Listing(text, resources[i..])
      invariant !full ==> Walked(buffer[..], text, bufpos, offset, preferredSize)
      invariant !full && i > 0 ==> if resources[i - 1].attributes == [] then |text| <= offset + preferredSize
                                    else |text| < offset + preferredSize
      invariant full ==> i < |resources| && Breaks(text, resources[i], offset, preferredSize) && bufpos >= preferredSize
                         && buffer[..preferredSize] == Window(Separated(text) + Link(resources[i]), offset,
                            preferredSize)
      decreases |resources| - i, !full
    {
      ListingNext(text, resources, i);
      hide Walked, Window, Listing, Link;
      var newStrpos;
      newStrpos, bufpos, full := PutResource(resources[i], buffer, strpos, bufpos, preferredSize, offset, text);
      if !full {
        text := Separated(text) + Link(resources[i]);
        strpos := newStrpos;
        i := i + 1;
      }
    }
    Finish(buffer[..], resources, i, full, text, bufpos, offset, preferredSize);
    badOption := bufpos == 0 && (i > 0 || full);
    newOffset := if i == |resources| then -1 else offset + preferredSize;
  }

  /** Where the loop has ended. */
  lemma Finish(data: Bytes, resources: seq<Resource>, i: nat, full: bool, text: Bytes, bufpos: nat, offset: nat,
      size: nat)
    requires i <= |resources| && (i == |resources| || full) && 0 < size < |data| && (i > 0 <==> text != [])
    requires Listing([], resources) == Listing(text, resources[i..])
    requires !full ==> Walked(data, text, bufpos, offset, size)
    requires !full && i > 0 ==> if resources[i - 1].attributes == [] then |text| <= offset + size
             else |text| < offset + size
    requires full ==> i < |resources| && Breaks(text, resources[i], offset, size) && bufpos >= size
                      && data[..size] == Window(Separated(text) + Link(resources[i]), offset, size)
    ensures data[..Least(bufpos, size)] == Window(Listing([], resources), offset, size)
    ensures Complete(resources, offset, size) <==> i == |resources|
    ensures bufpos == 0 <==> |Listing([], resources)| <= offset
  {
    hide Listing, Window, Link, Breaks, Complete;
    if full {
      FinishFull(data, resources, i, text, bufpos, offset, size);
    } else {
      FinishEnd(data, resources, text, bufpos, offset, size);
    }
  }

  lemma FinishFull(data: Bytes, resources: seq<Resource>, i: nat, text: Bytes, bufpos: nat, offset: nat, size: nat)
    requires i < |resources| && 0 < size < |data| && Listing([], resources) == Listing(text, resources[i..])
    requires Breaks(text, resources[i], offset, size) && bufpos >= size
    requires data[..size] == Window(Separated(text) + Link(resources[i]), offset, size)
    ensures data[..Least(bufpos, size)] == Window(Listing([], resources), offset, size)
    ensures !Complete(resources, offset, size) && |Listing([], resources)| > offset
  {
    var next := Separated(text) + Link(resources[i]);
    ListingNext(text, resources, i);
    var more := ListingPrefix(next, resources[i + 1..]);
    assert next != [];
    hide Listing, Link;
    WindowFull(next, more, offset, size);
    if i + 1 < |resources| {
      ListingLonger(next, resources[i + 1..]);
    } else {
      ListingEnds(next, resources[i + 1..]);
    }
  }

  lemma ListingEnds(text: Bytes, resources: seq<Resource>)
    requires resources == []
    ensures Listing(text, resources) == text
  {
  }

  lemma FinishEnd(data: Bytes, resources: seq<Resource>, text: Bytes, bufpos: nat, offset: nat, size: nat)
    requires 0 < size && (resources != [] <==> text != [])
             && Listing([], resources) == Listing(text, resources[|resources|..])
    requires Walked(data, text, bufpos, offset, size)
    requires resources != [] ==> if resources[|resources| - 1].attributes == [] then |text| <= offset + size
                                 else |text| < offset + size
    ensures data[..Least(bufpos, size)] == Window(Listing([], resources), offset, size)
    ensures Complete(resources, offset, size) && (bufpos == 0 <==> |Listing([], resources)| <= offset)
  {
    hide Listing, Window, Complete;
    ListingEnds(text, resources[|resources|..]);
    WindowEmpty(text, offset, size);
    CompleteIs(resources, text, offset, size);
  }

  lemma WindowEmpty(t: Bytes, offset: nat, size: nat)
    requires size > 0
    ensures |Window(t, offset, size)| == 0 <==> |t| <= offset
  {
  }

  lemma CompleteIs(resources: seq<Resource>, text: Bytes, offset: nat, size: nat)
    requires Listing([], resources) == text
    requires resources != [] ==> if resources[|resources| - 1].attributes == [] then |text| <= offset + size
                                 else |text| < offset + size
    ensures Complete(resources, offset, size)
  {
    hide Listing;
  }

  /* ---- Stepping through the listing ---- */

  function Windows(t: Bytes, size: nat, n: nat): Bytes {
    if n == 0 then [] else Windows(t, size, n - 1) + Window(t, (n - 1) * size, size)
  }

  /** Windows at successive offsets put the listing together again. */
  lemma {:induction false} Steps(t: Bytes, size: nat, n: nat)
    ensures Windows(t, size, n) == t[..Least(|t|, n * size)]
  {
    hide Window;
    if n > 0 {
      Steps(t, size, n - 1);
      StepCut(t, (n - 1) * size, size);
      assert n * size == (n - 1) * size + size;
    } else {
      assert t[..0] == [];
    }
  }

  lemma StepCut(t: Bytes, at: nat, size: nat)
    ensures t[..Least(|t|, at)] + Window(t, at, size) == t[..Least(|t|, at + size)]
  {
    if |t| > at {
      assert t[..Least(|t|, at + size)] == t[..at] + t[at..Least(|t|, at + size)];
    }
  }

  /** Offsets stepped by the size from 0 reach the completing window; the listing has then been delivered. */
  lemma StepsComplete(resources: seq<Resource>, size: nat, n: nat)
    requires size > 0 && n > 0 && Complete(resources, (n - 1) * size, size)
    ensures Windows(Listing([], resources), size, n) == Listing([], resources)
  {
    var t := Listing([], resources);
    Steps(t, size, n);
    assert n * size == (n - 1) * size + size;
    assert t[..|t|] == t;
  }

  /** The last attributes end exactly on the edge of a window, where the handler leaves its loop too early. */
  predicate AtEdge(resources: seq<Resource>, size: nat)
    requires size > 0
  {
    resources != [] && resources[|resources| - 1].attributes != [] && |Listing([], resources)| % size == 0
  }

  /** The window that reaches the end of the listing says that this is all if and only if the last attributes do
      not end on its edge: for any size. */
  lemma EdgeIff(resources: seq<Resource>, size: nat, n: nat)
    requires size > 0 && n * size < |Listing([], resources)| <= n * size + size
    ensures Complete(resources, n * size, size) <==> !AtEdge(resources, size)
  {
    var t := |Listing([], resources)|;
    hide Listing;
    Between(t, n, size, n * size);
  }

  lemma Between(t: nat, n: nat, size: nat, start: nat)
    requires size > 0 && start == n * size && start < t <= start + size
    ensures (t + size - 1) / size == n + 1 && (t % size == 0 <==> t == start + size)
  {
    Exactly(n, size);
    Exactly(n + 1, size);
    var r := t - start;
    assert t + size - 1 == (n + 1) * size + (r - 1);
    Quotient(t + size - 1, n + 1, size, r - 1);
    if r < size { Quotient(t, n, size, r); }
  }

  lemma Exactly(n: nat, size: nat)
    requires size > 0
    ensures 0 <= n * size && (n * size) % size == 0 && (n * size) / size == n && (n + 1) * size == n * size + size
  {
    Quotient(n * size, n, size, 0);
  }

  lemma Quotient(t: nat, q: nat, size: nat, r: nat)
    requires size > 0 && t == q * size + r && r < size
    ensures t / size == q && t % size == r
  {
    var d := t / size - q;
    assert t == size * (t / size) + t % size;
    assert d * size == r - t % size;
    assert d > 0 ==> d * size >= size;
    assert d < 0 ==> d * size + size <= 0;
  }

  /** Input: the listing </a>;title="abc" has sixteen bytes; with windows of sixteen bytes, the first one holds all
      of it and says that there is more. */
  lemma EdgeInput()
    ensures var listed := [Resource([0x61], [0x74, 0x69, 0x74, 0x6C, 0x65, 0x3D, 0x22, 0x61, 0x62, 0x63, 0x22])];
            && Listing([], listed) == [0x3C, 0x2F, 0x61, 0x3E, 0x3B, 0x74, 0x69, 0x74, 0x6C, 0x65, 0x3D, 0x22, 0x61,
                                       0x62, 0x63, 0x22]
            && AtEdge(listed, 16) && !Complete(listed, 0, 16)
  {
  }
}
