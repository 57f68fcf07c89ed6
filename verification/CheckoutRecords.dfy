/**
 The record one checkout entry becomes in the measured stream, and why a stream
 can be read back in only one way. The digest is modelled by the bytes it is
 taken over.
 */
module CheckoutRecords {
  import opened Text

  /** What an object is, in the vocabulary a state and a walk share. */
  datatype Kind = Directory | File | Symlink | Fifo | Socket | CharDevice | BlockDevice | Unknown

  /** One entry, reduced to what a state and a walk can both state about it. */
  datatype Entry = Entry(path: string, kind: Kind, mode: nat, fixed: bool, size: int, link: string)

  datatype Permissions = Undecided | Bits(bits: nat)

  /** What the record says: permission bits only where the state decides them. */
  datatype Seen = Seen(path: string, kind: Kind, permissions: Permissions, size: int, link: string)

  const NUL := '\0'

  // The domain of the digest, for ABI version 1 and record format 2.
  const HEADER := "cpak.checkout.v1.2\n"

  function KindText(kind: Kind): string
  {
    match kind
    case Directory => "dir"
    case File => "file"
    case Symlink => "symlink"
    case Fifo => "fifo"
    case Socket => "socket"
    case CharDevice => "char"
    case BlockDevice => "block"
    case Unknown => "unknown"
  }

  function View(e: Entry): Seen
  {
    Seen(e.path, e.kind, if e.fixed then Bits(e.mode % 4096) else Undecided, e.size, e.link)
  }

  function Views(es: seq<Entry>): (r: seq<Seen>)
    ensures |r| == |es|
    ensures forall i | 0 <= i < |es| :: r[i] == View(es[i])
  {
    seq(|es|, i requires 0 <= i < |es| => View(es[i]))
  }

  /**
   Names carry no NUL, only a symlink has a target, its size is the length of the
   target, and a directory has none.
   */
  predicate WellFormed(e: Entry)
  {
    && NUL !in e.path
    && (if e.kind.Symlink? then e.size == |e.link| else e.link == "")
    && (e.kind.Directory? ==> e.size == 0)
  }

  // ---------- the two numeric fields ----------

  /** `%04o` of the twelve permission bits. */
  function Octal(bits: nat): string
    requires bits < 4096
  {
    [DIGITS[bits / 512], DIGITS[bits / 64 % 8], DIGITS[bits / 8 % 8], DIGITS[bits % 8]]
  }

  function ModeText(e: Entry): string
  {
    if e.fixed then Octal(e.mode % 4096) else "-"
  }

  /** `%d`, or `strconv.Itoa`. */
  function Decimal(n: int): string
  {
    if n < 0 then "-" + Digits(-n) else Digits(n)
  }

  lemma DigitsDistinct(i: nat, j: nat)
    requires i < 10 && j < 10 && DIGITS[i] == DIGITS[j]
    ensures i == j
  {
  }

  lemma {:induction false} DigitsInjective(m: nat, n: nat)
    requires Digits(m) == Digits(n)
    ensures m == n
  {
    var a, b := Digits(m), Digits(n);
    assert a[|a| - 1] == DIGITS[m % 10] && b[|b| - 1] == DIGITS[n % 10];
    DigitsDistinct(m % 10, n % 10);
    if m >= 10 && n >= 10 {
      assert a[..|a| - 1] == Digits(m / 10) && b[..|b| - 1] == Digits(n / 10);
      DigitsInjective(m / 10, n / 10);
    }
  }

  lemma DecimalInjective(m: int, n: int)
    requires Decimal(m) == Decimal(n)
    ensures m == n
  {
    Sign(m);
    Sign(n);
    if m < 0 {
      assert Decimal(m)[1..] == Digits(-m) && Decimal(n)[1..] == Digits(-n);
      DigitsInjective(-m, -n);
    } else {
      DigitsInjective(m, n);
    }
  }

  lemma Sign(n: int)
    ensures Decimal(n) != "" && (Decimal(n)[0] == '-' <==> n < 0)
  {
    if n >= 0 {
      assert Digits(n)[0] in Digits(n);
    }
  }

  lemma OctalInjective(m: nat, n: nat)
    requires m < 4096 && n < 4096 && Octal(m) == Octal(n)
    ensures m == n
  {
    DigitsDistinct(m / 512, n / 512);
    DigitsDistinct(m / 64 % 8, n / 64 % 8);
    DigitsDistinct(m / 8 % 8, n / 8 % 8);
    DigitsDistinct(m % 8, n % 8);
    assert forall k: nat :: k == 8 * (k / 8) + k % 8;
    assert m / 8 / 8 == m / 64 && m / 64 / 8 == m / 512;
    assert n / 8 / 8 == n / 64 && n / 64 / 8 == n / 512;
  }

  lemma ModeTextInjective(e: Entry, f: Entry)
    requires ModeText(e) == ModeText(f)
    ensures View(e).permissions == View(f).permissions
  {
    if e.fixed && f.fixed {
      OctalInjective(e.mode % 4096, f.mode % 4096);
    } else {
      assert |ModeText(e)| == |ModeText(f)|;
    }
  }

  // ---------- one record ----------

  function Record(e: Entry): string
  {
    e.path + [NUL] + (KindText(e.kind) + [NUL] + (ModeText(e) + [NUL] + (Decimal(e.size) + [NUL] + (e.link + "\n"))))
  }

  function Stream(es: seq<Entry>): string
  {
    if es == [] then "" else Record(es[0]) + Stream(es[1..])
  }

  /** What is digested: the domain line, the root, and the entries. */
  function Measurement(es: seq<Entry>): string
  {
    HEADER + Stream(es)
  }

  lemma FieldEnds(a: string, x: string, b: string, y: string)
    requires a + [NUL] + x == b + [NUL] + y
    requires NUL !in a && NUL !in b
    ensures a == b && x == y
  {
    var s := a + [NUL] + x;
    assert s[|a|] == NUL && s[|b|] == NUL;
    assert forall i | 0 <= i < |a| :: s[i] == a[i] && a[i] in a;
    assert forall i | 0 <= i < |b| :: s[i] == b[i] && b[i] in b;
    assert s[..|a|] == a && s[..|b|] == b;
    assert s[|a| + 1..] == x && s[|b| + 1..] == y;
  }

  lemma KindTextInjective(k: Kind, l: Kind)
    requires KindText(k) == KindText(l)
    ensures k == l
  {
    var a, b := KindText(k), KindText(l);
    assert |a| == |b| && a[0] == b[0] && a[1] == b[1] && a[2] == b[2];
  }

  lemma NumberFieldsHaveNoNul(e: Entry)
    ensures NUL !in KindText(e.kind) && NUL !in ModeText(e) && NUL !in Decimal(e.size)
  {
  }

  lemma RecordAppended(e: Entry, rest: string)
    ensures Record(e) + rest ==
            e.path + [NUL]
            + (KindText(e.kind) + [NUL] + (ModeText(e) + [NUL] + (Decimal(e.size) + [NUL] + (e.link + "\n" + rest))))
  {
  }

  /** A record ends where it says, and says the same thing whatever follows it. */
  lemma RecordReadsOneWay(e: Entry, r: string, f: Entry, s: string)
    requires WellFormed(e) && WellFormed(f)
    requires Record(e) + r == Record(f) + s
    ensures View(e) == View(f) && r == s
  {
    RecordAppended(e, r);
    RecordAppended(f, s);
    var e4, f4 := e.link + "\n" + r, f.link + "\n" + s;
    var e3, f3 := Decimal(e.size) + [NUL] + e4, Decimal(f.size) + [NUL] + f4;
    var e2, f2 := ModeText(e) + [NUL] + e3, ModeText(f) + [NUL] + f3;
    NumberFieldsHaveNoNul(e);
    NumberFieldsHaveNoNul(f);
    FieldEnds(e.path, KindText(e.kind) + [NUL] + e2, f.path, KindText(f.kind) + [NUL] + f2);
    FieldEnds(KindText(e.kind), e2, KindText(f.kind), f2);
    KindTextInjective(e.kind, f.kind);
    FieldEnds(ModeText(e), e3, ModeText(f), f3);
    FieldEnds(Decimal(e.size), e4, Decimal(f.size), f4);
    DecimalInjective(e.size, f.size);
    ModeTextInjective(e, f);
    assert |e.link| == |f.link|;
    assert e4[..|e.link|] == e.link && f4[..|f.link|] == f.link;
    assert e4[|e.link| + 1..] == r && f4[|f.link| + 1..] == s;
  }

  // ---------- the stream ----------

  /** The framing is unambiguous: equal streams say the same thing entry for entry. */
  lemma {:induction false} StreamReadsOneWay(es: seq<Entry>, fs: seq<Entry>)
    requires forall e | e in es :: WellFormed(e)
    requires forall f | f in fs :: WellFormed(f)
    requires Stream(es) == Stream(fs)
    ensures Views(es) == Views(fs)
  {
    StreamEmpty(es);
    StreamEmpty(fs);
    if es != [] {
      RecordReadsOneWay(es[0], Stream(es[1..]), fs[0], Stream(fs[1..]));
      StreamReadsOneWay(es[1..], fs[1..]);
      ViewsCons(es);
      ViewsCons(fs);
    }
  }

  lemma {:induction false} StreamEmpty(es: seq<Entry>)
    ensures Stream(es) == "" <==> es == []
  {
    if es != [] {
      assert |Record(es[0])| > 0;
    }
  }

  lemma ViewsCons(es: seq<Entry>)
    requires es != []
    ensures Views(es) == [View(es[0])] + Views(es[1..])
  {
  }

  /** The other direction: the record depends on nothing but the view. */
  lemma {:induction false} SameViewsSameStream(es: seq<Entry>, fs: seq<Entry>)
    requires Views(es) == Views(fs)
    ensures Stream(es) == Stream(fs)
  {
    if es != [] {
      assert |fs| == |es|;
      ViewsCons(es);
      ViewsCons(fs);
      assert View(es[0]) == View(fs[0]);
      assert Record(es[0]) == Record(fs[0]);
      SameViewsSameStream(es[1..], fs[1..]);
    }
  }

  /** Measuring separates exactly what the views separate. */
  lemma MeasurementSeparates(es: seq<Entry>, fs: seq<Entry>)
    requires forall e | e in es :: WellFormed(e)
    requires forall f | f in fs :: WellFormed(f)
    ensures Measurement(es) == Measurement(fs) <==> Views(es) == Views(fs)
  {
    if Measurement(es) == Measurement(fs) {
      assert Measurement(es)[|HEADER|..] == Stream(es);
      assert Measurement(fs)[|HEADER|..] == Stream(fs);
      StreamReadsOneWay(es, fs);
    }
    if Views(es) == Views(fs) {
      SameViewsSameStream(es, fs);
    }
  }

  lemma {:induction false} StreamConcat(a: seq<Entry>, b: seq<Entry>)
    ensures Stream(a + b) == Stream(a) + Stream(b)
  {
    if a == [] {
      assert a + b == b;
    } else {
      assert (a + b)[1..] == a[1..] + b;
      StreamConcat(a[1..], b);
    }
  }

  lemma StreamOne(e: Entry)
    ensures Stream([e]) == Record(e)
  {
    var r := Record(e);
    assert [e][1..] == [];
    assert Stream([e]) == r + "";
  }

  lemma Append(a: string, b: string, c: string)
    ensures a + (b + c) == a + b + c
  {
  }

  lemma MeasurementGrows(es: seq<Entry>, e: Entry)
    ensures Measurement(es + [e]) == Measurement(es) + Record(e)
  {
    StreamConcat(es, [e]);
    StreamOne(e);
    Append(HEADER, Stream(es), Record(e));
  }

  /** The running digest both sides write their entries to. */
  class RunningDigest {
    var bytes: string
    ghost var written: seq<Entry>

    ghost predicate Valid()
      reads this
    {
      bytes == Measurement(written)
    }

    constructor ()
      ensures Valid() && written == []
    {
      bytes := HEADER;
      written := [];
    }

    /** Appends one record. */
    method Write(e: Entry)
      requires Valid()
      modifies this
      ensures Valid() && written == old(written) + [e]
    {
      MeasurementGrows(written, e);
      bytes := bytes + Record(e);
      written := written + [e];
    }
  }
}
