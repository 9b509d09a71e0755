/** Serializing a packet's options and interpreting options that were read, and how far the
    second undoes the first. */
module ErbiumRoundTrip {
  import opened OptionFormat
  import opened SplitMerge
  import opened ErbiumPacket

  /** The numbers the serializer goes through, in the order of its code. */
  const ORDER: seq<nat> := [IF_MATCH, URI_HOST, ETAG, IF_NONE_MATCH, OBSERVE, URI_PORT, LOCATION_PATH, URI_PATH,
                            CONTENT_TYPE, MAX_AGE, URI_QUERY, ACCEPT, LOCATION_QUERY, BLOCK2, BLOCK1, SIZE]

  /** The fields the setters of the packet can leave behind an option number. */
  predicate FieldOk(n: nat, f: Field) {
    match KindOf(n)
    case Cut => f.Text? && |f.bytes| <= ETAG_LEN
    case Whole => f.Text? && |f.bytes| < 0x10000
    case Parted(_) => f.Text? && |f.bytes| < 0x10000
    case Bare => f.Present?
    case Integer(limit) => f.Number? && f.n < limit
    case Repeated => f.Numbers? && 1 <= |f.ns| <= MAX_ACCEPT_NUM && forall i :: 0 <= i < |f.ns| ==> f.ns[i] < 0x10000
    case Blockwise => f.Block? && BlockInRange(f.num, f.size)
    case Proxy => false
    case Unknown => false
  }

  predicate FieldsOk(fields: Fields) {
    forall n :: n in fields ==> n in ORDER && FieldOk(n, fields[n])
  }

  function AcceptPieces(ns: seq<nat>): seq<Bytes>
    requires forall i :: 0 <= i < |ns| ==> ns[i] < 0x10000
  {
    if ns == [] then [] else [IntBytes(ns[0])] + AcceptPieces(ns[1..])
  }

  /** The option values the serializer writes for one field. */
  function Pieces(n: nat, f: Field): seq<Bytes>
    requires FieldOk(n, f)
  {
    match KindOf(n)
    case Cut => [f.bytes]
    case Whole => [f.bytes]
    case Parted(separator) => Parts(f.bytes, 0, 0, separator)
    case Bare => [IntBytes(0)]
    case Integer(_) => [IntBytes(f.n)]
    case Repeated => AcceptPieces(f.ns)
    case Blockwise => BlockRoundTrip(f.num, f.more, f.size); [IntBytes(BlockWord(f.num, f.more, f.size))]
    case Proxy => []
    case Unknown => []
  }

  /** The options written from position `i` of the order on. */
  function OptionsFrom(fields: Fields, i: nat): seq<Opt>
    requires FieldsOk(fields) && i <= |ORDER|
    decreases |ORDER| - i
  {
    if i == |ORDER| then []
    else if ORDER[i] in fields then Numbered(ORDER[i], Pieces(ORDER[i], fields[ORDER[i]])) + OptionsFrom(fields, i + 1)
    else OptionsFrom(fields, i + 1)
  }

  /* ---- Interpreting options ---- */

  datatype Outcome = Ok(fields: Fields) | Refused(status: nat)

  function CutTo(b: Bytes, n: nat): Bytes {
    if |b| <= n then b else b[..n]
  }

  /** The parser's switch for one option. An unknown option is refused if its number is odd. */
  function Apply(fields: Fields, o: Opt): Outcome {
    var n := o.number;
    match KindOf(n)
    case Cut => Ok(fields[n := Text(CutTo(o.value, ETAG_LEN))])
    case Whole => Ok(fields[n := Text(o.value)])
    case Parted(separator) =>
      var text := if n in fields && fields[n].Text? then fields[n].bytes else [];
      Ok(fields[n := Text(MergeOne(text, o.value, separator))])
    case Bare => Ok(fields[n := Present])
    case Integer(limit) => Ok(fields[n := Number(if limit > 0 then IntValue(o.value) % limit else 0)])
    case Repeated =>
      var ns := if n in fields && fields[n].Numbers? then fields[n].ns else [];
      Ok(fields[n := Numbers(if |ns| < MAX_ACCEPT_NUM then ns + [IntValue(o.value) % 0x10000] else ns)])
    case Blockwise => Ok(fields[n := BlockOf(IntValue(o.value))])
    case Proxy => Refused(PROXYING_NOT_SUPPORTED)
    case Unknown => if n % 2 == 1 then Refused(BAD_OPTION) else Ok(fields[n := Present])
  }

  function Run(fields: Fields, opts: seq<Opt>): Outcome
    decreases opts
  {
    if opts == [] then Ok(fields)
    else
      var next := Apply(fields, opts[0]);
      if next.Refused? then next else Run(next.fields, opts[1..])
  }

  lemma {:induction false} RunSplit(fields: Fields, a: seq<Opt>, b: seq<Opt>)
    ensures Run(fields, a + b) == if Run(fields, a).Ok? then Run(Run(fields, a).fields, b) else Run(fields, a)
    decreases a
  {
    if a == [] {
      assert a + b == b;
    } else {
      assert (a + b)[1..] == a[1..] + b;
      if Apply(fields, a[0]).Ok? { RunSplit(Apply(fields, a[0]).fields, a[1..], b); }
    }
  }

  /* ---- One field ---- */

  /** The field that comes back. */
  function Returned(n: nat, f: Field): Field
    requires FieldOk(n, f)
  {
    match KindOf(n)
    case Parted(separator) => Text(Merge([], Parts(f.bytes, 0, 0, separator), separator))
    case Blockwise => BlockRoundTrip(f.num, f.more, f.size); BlockOf(BlockWord(f.num, f.more, f.size))
    case _ => f
  }

  /** The fields whose value survives: splitters as `Rejoins` asks, block sizes that are powers of two. */
  predicate Survives(n: nat, f: Field)
    requires FieldOk(n, f)
  {
    match KindOf(n)
    case Parted(separator) => Rejoins(f.bytes, separator)
    case Blockwise => PowerOfTwo(f.size)
    case _ => true
  }

  lemma ReturnedIff(n: nat, f: Field)
    requires FieldOk(n, f)
    ensures Returned(n, f) == f <==> Survives(n, f)
  {
    match KindOf(n)
    case Parted(separator) => RoundTripIff(f.bytes, separator);
    case Blockwise => BlockRoundTrip(f.num, f.more, f.size);
    case _ =>
  }

  lemma {:induction false} RunParts(fields: Fields, n: nat, parts: seq<Bytes>, separator: Byte)
    requires KindOf(n) == Parted(separator) && n in fields && fields[n].Text?
    ensures Run(fields, Numbered(n, parts)) == Ok(fields[n := Text(Merge(fields[n].bytes, parts, separator))])
    decreases |parts|
  {
    hide KindOf;
    if parts == [] {
      assert fields[n := fields[n]] == fields;
    } else {
      var next := Text(MergeOne(fields[n].bytes, parts[0], separator));
      RunParts(fields[n := next], n, parts[1..], separator);
      assert fields[n := next][n := Text(Merge(next.bytes, parts[1..], separator))]
          == fields[n := Text(Merge(next.bytes, parts[1..], separator))];
      RunCons(fields, n, parts);
    }
  }

  lemma RunCons(fields: Fields, n: nat, pieces: seq<Bytes>)
    requires pieces != []
    ensures var next := Apply(fields, Opt(n, pieces[0]));
            Run(fields, Numbered(n, pieces))
            == if next.Refused? then next else Run(next.fields, Numbered(n, pieces[1..]))
  {
    assert Numbered(n, pieces)[0] == Opt(n, pieces[0]) && Numbered(n, pieces)[1..] == Numbered(n, pieces[1..]);
  }

  lemma RunOne(fields: Fields, n: nat, value: Bytes)
    ensures Run(fields, Numbered(n, [value])) == Apply(fields, Opt(n, value))
  {
    RunCons(fields, n, [value]);
    assert [value][1..] == [] && Numbered(n, []) == [];
  }

  lemma ApplyAccept(fields: Fields, n: nat, ns: seq<nat>, v: nat)
    requires KindOf(n) == Repeated && v < 0x10000 && |ns| < MAX_ACCEPT_NUM
    requires if n in fields then fields[n] == Numbers(ns) else ns == []
    ensures Apply(fields, Opt(n, IntBytes(v))) == Ok(fields[n := Numbers(ns + [v])])
  {
    hide KindOf, IntBytes, IntValue;
    IntRoundTrip(v);
  }

  lemma AcceptTwo(ns: seq<nat>)
    requires |ns| == 2 && ns[0] < 0x10000 && ns[1] < 0x10000
    ensures AcceptPieces(ns) == [IntBytes(ns[0]), IntBytes(ns[1])]
    ensures AcceptPieces(ns)[1..] == [IntBytes(ns[1])]
  {
    hide IntBytes;
    assert AcceptPieces(ns[1..]) == [IntBytes(ns[1])];
  }

  lemma RunAccept(fields: Fields, n: nat, ns: seq<nat>)
    requires KindOf(n) == Repeated && n !in fields && 1 <= |ns| <= MAX_ACCEPT_NUM
    requires forall i :: 0 <= i < |ns| ==> ns[i] < 0x10000
    ensures Run(fields, Numbered(n, AcceptPieces(ns))) == Ok(fields[n := Numbers(ns)])
  {
    hide KindOf, IntBytes, IntValue, Run, Numbered, Apply;
    var first := fields[n := Numbers([ns[0]])];
    var none: seq<nat> := [];
    ApplyAccept(fields, n, none, ns[0]);
    assert none + [ns[0]] == [ns[0]];
    if |ns| == 1 {
      assert AcceptPieces(ns) == [IntBytes(ns[0])];
      RunOne(fields, n, IntBytes(ns[0]));
      assert ns == [ns[0]];
    } else {
      ApplyAccept(first, n, [ns[0]], ns[1]);
      AcceptTwo(ns);
      RunCons(fields, n, AcceptPieces(ns));
      RunOne(first, n, IntBytes(ns[1]));
      assert [ns[0]] + [ns[1]] == ns;
      assert first[n := Numbers(ns)] == fields[n := Numbers(ns)];
    }
  }

  lemma ApplyInteger(fields: Fields, n: nat, value: Bytes, v: nat)
    requires KindOf(n).Integer? && IntValue(value) == v < KindOf(n).limit
    ensures Apply(fields, Opt(n, value)) == Ok(fields[n := Number(v)])
  {
    hide KindOf, IntValue;
    SmallRemainder(v, KindOf(n).limit);
  }

  lemma SmallRemainder(v: nat, limit: nat)
    requires v < limit
    ensures v % limit == v
  {
  }

  lemma RunInteger(fields: Fields, n: nat, v: nat)
    requires KindOf(n).Integer? && v < KindOf(n).limit
    ensures v < WORD32 && Run(fields, Numbered(n, [IntBytes(v)])) == Ok(fields[n := Number(v)])
  {
    hide KindOf, IntBytes, IntValue, Run, Numbered, Apply;
    IntegerKind(n);
    RunOne(fields, n, IntBytes(v));
    IntRoundTrip(v);
    ApplyInteger(fields, n, IntBytes(v), v);
  }

  lemma RunBlock(fields: Fields, n: nat, word: nat)
    requires KindOf(n).Blockwise? && word < WORD32
    ensures Run(fields, Numbered(n, [IntBytes(word)])) == Ok(fields[n := BlockOf(word)])
  {
    hide KindOf, IntBytes, IntValue, Run, Numbered, BlockOf;
    RunOne(fields, n, IntBytes(word));
    IntRoundTrip(word);
  }

  /** The options of one field set that field, to what comes back, and no other. */
  lemma RunField(fields: Fields, n: nat, f: Field)
    requires FieldOk(n, f) && n !in fields
    ensures Run(fields, Numbered(n, Pieces(n, f))) == Ok(fields[n := Returned(n, f)])
  {
    hide KindOf, IntBytes, IntValue, Run, Numbered, Merge, Parts, AcceptPieces, BlockOf, BlockWord;
    match KindOf(n)
    case Cut => RunOne(fields, n, f.bytes);
    case Whole => RunOne(fields, n, f.bytes);
    case Bare => RunOne(fields, n, IntBytes(0));
    case Integer(limit) => RunInteger(fields, n, f.n);
    case Repeated => RunAccept(fields, n, f.ns);
    case Blockwise =>
      BlockRoundTrip(f.num, f.more, f.size);
      RunBlock(fields, n, BlockWord(f.num, f.more, f.size));
    case Parted(separator) => RunParted(fields, n, f, separator);
  }

  lemma IntegerKind(n: nat)
    ensures KindOf(n).Integer? ==> 0 < KindOf(n).limit <= WORD32
  {
  }

  lemma RunParted(fields: Fields, n: nat, f: Field, separator: Byte)
    requires KindOf(n) == Parted(separator) && FieldOk(n, f) && n !in fields
    ensures Run(fields, Numbered(n, Pieces(n, f))) == Ok(fields[n := Returned(n, f)])
  {
    hide KindOf;
    var parts := Parts(f.bytes, 0, 0, separator);
    JoinParts(f.bytes, 0, 0, separator);
    RunCons(fields, n, parts);
    var first := fields[n := Text(parts[0])];
    RunParts(first, n, parts[1..], separator);
    assert first[n := Returned(n, f)] == fields[n := Returned(n, f)];
  }

  /* ---- All fields ---- */

  /** The fields that have come back when the options up to position `i` of the order are read. */
  function Done(fields: Fields, i: nat): Fields
    requires FieldsOk(fields) && i <= |ORDER|
  {
    map n | n in fields && n in ORDER[..i] :: Returned(n, fields[n])
  }

  lemma DoneStep(fields: Fields, i: nat)
    requires FieldsOk(fields) && i < |ORDER|
    ensures ORDER[i] !in Done(fields, i)
    ensures Done(fields, i + 1)
            == if ORDER[i] in fields then Done(fields, i)[ORDER[i] := Returned(ORDER[i], fields[ORDER[i]])]
               else Done(fields, i)
  {
    hide Returned, KindOf, FieldOk;
    assert ORDER[..i + 1] == ORDER[..i] + [ORDER[i]];
    assert ORDER[i] !in ORDER[..i];
  }

  lemma RunStep(fields: Fields, i: nat)
    requires FieldsOk(fields) && i < |ORDER|
    ensures Run(Done(fields, i), OptionsFrom(fields, i)) == Run(Done(fields, i + 1), OptionsFrom(fields, i + 1))
  {
    hide Run, Pieces, Returned, Done, KindOf, FieldOk, Numbered;
    DoneStep(fields, i);
    var n := ORDER[i];
    if n in fields {
      RunField(Done(fields, i), n, fields[n]);
      RunSplit(Done(fields, i), Numbered(n, Pieces(n, fields[n])), OptionsFrom(fields, i + 1));
    }
  }

  lemma {:induction false} RunAll(fields: Fields, i: nat)
    requires FieldsOk(fields) && i <= |ORDER|
    ensures Run(Done(fields, i), OptionsFrom(fields, i)) == Ok(Done(fields, |ORDER|))
    decreases |ORDER| - i
  {
    if i < |ORDER| {
      hide Run, Done, OptionsFrom, FieldsOk;
      RunStep(fields, i);
      RunAll(fields, i + 1);
    }
  }

  /** Interpreting the written options gives every field back if and only if every field survives. */
  lemma FieldsRoundTripIff(fields: Fields)
    requires FieldsOk(fields)
    ensures Run(map[], OptionsFrom(fields, 0)) == Ok(fields)
            <==> forall n :: n in fields ==> Survives(n, fields[n])
  {
    hide Returned, KindOf, FieldOk, Survives, Run;
    RunAll(fields, 0);
    assert Done(fields, 0) == map[];
    var back := Done(fields, |ORDER|);
    assert ORDER[..|ORDER|] == ORDER;
    assert back.Keys == fields.Keys;
    forall n | n in fields ensures back[n] == fields[n] <==> Survives(n, fields[n]) {
      ReturnedIff(n, fields[n]);
    }
  }
}
