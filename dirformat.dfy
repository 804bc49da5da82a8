/** The on-disk format of a directory (directory.cpp): the content of a
    directory's file is a stream of packed records

        name bytes || 0 || the i-number in I_WIDTH little-endian bytes

    with no padding. This module states, as functions of the stream's
    value, what `Directory::nextName` reads at a cursor, what a scan for a
    name or an i-number finds, and what inserting and deleting a record do;
    the class in directory.dfy is proved against these functions. */
module DirectoryFormat {
  import opened Fs33Types

  datatype Entry = Entry(name: seq<byte>, inum: Word)

  /** A name a record can hold: non-empty, since an empty name ends the
      directory, and without NUL, which ends the name. */
  predicate NameOk(n: seq<byte>) {
    |n| > 0 && NulFree(n)
  }

  predicate NamesOk(es: seq<Entry>) {
    forall i :: 0 <= i < |es| ==> NameOk(es[i].name)
  }

  // ---------------------------------------------------------------------
  // Reading records (nextName)
  // ---------------------------------------------------------------------

  /** `n` bytes read one at a time from position `c`: the stream's bytes,
      then 0 for every read past its end. */
  function Padded(s: seq<byte>, c: nat, n: nat): (b: seq<byte>)
    requires c <= |s|
    ensures |b| == n
    ensures forall k :: 0 <= k < n ==> b[k] == if c + k < |s| then s[c + k] else 0
  {
    if c + n <= |s| then s[c..c + n] else s[c..] + NulBytes(c + n - |s|)
  }

  function NulBytes(n: nat): (b: seq<byte>)
    ensures |b| == n && forall k :: 0 <= k < n ==> b[k] == 0
  {
    if n == 0 then [] else [0] + NulBytes(n - 1)
  }

  /** One step of the reader: the stream ends (the next name is empty),
      or a record with its name, its i-number bytes, and the cursor after it. */
  datatype Step =
    | Stop(next: nat)
    | Rec(name: seq<byte>, ibytes: seq<byte>, next: nat)

  function Min(a: nat, b: nat): nat {
    if a <= b then a else b
  }

  /** What `nextName` reads at cursor `c`: bytes up to and including the
      next 0 (the read that finds the end also yields 0 but consumes
      nothing); an empty name stops; otherwise I_WIDTH more reads give the
      i-number. */
  function ReadRecord(s: seq<byte>, c: nat): (st: Step)
    requires c <= |s|
    ensures c <= st.next <= |s|
    ensures st.Rec? ==> c < st.next
  {
    var j := NulFrom(s, c);
    if j == c then Stop(Min(c + 1, |s|))
    else
      var c1 := Min(j + 1, |s|);
      Rec(s[c..j], Padded(s, c1, I_WIDTH), Min(c1 + I_WIDTH, |s|))
  }

  /** A read stops exactly at a NUL or at the end of the stream, consuming
      the NUL; otherwise it yields the longest run of non-NUL bytes from
      `c`, the I_WIDTH reads after its terminator, and the cursor after
      them. */
  lemma ReadRecordSpec(s: seq<byte>, c: nat)
    requires c <= |s|
    ensures var st := ReadRecord(s, c);
      && (st.Stop? <==> c == |s| || s[c] == 0)
      && (st.Stop? ==> st.next == Min(c + 1, |s|))
      && (st.Rec? ==>
            && NameOk(st.name) && c + |st.name| <= |s| && st.name == s[c..c + |st.name|]
            && (c + |st.name| == |s| || s[c + |st.name|] == 0)
            && |st.ibytes| == I_WIDTH
            && st.ibytes == Padded(s, Min(c + |st.name| + 1, |s|), I_WIDTH)
            && st.next == Min(Min(c + |st.name| + 1, |s|) + I_WIDTH, |s|))
  {
    var j := NulFrom(s, c);
    if j != c {
      assert NulFree(s[c..j]) by {
        forall k | 0 <= k < j - c
          ensures s[c..j][k] != 0
        {
          assert s[c..j][k] == s[c + k];
        }
      }
    }
  }

  /** The records from cursor `c` on, up to the first empty name. */
  function ParseFrom(s: seq<byte>, c: nat): (es: seq<Entry>)
    requires c <= |s|
    decreases |s| - c
  {
    match ReadRecord(s, c)
    case Stop(_) => []
    case Rec(name, ib, next) => [Entry(name, WordOf(ib))] + ParseFrom(s, next)
  }

  /** Every record read holds a name a record can hold. */
  lemma {:induction false} ParseFromNamesOk(s: seq<byte>, c: nat)
    requires c <= |s|
    ensures NamesOk(ParseFrom(s, c))
    decreases |s| - c
  {
    ReadRecordSpec(s, c);
    match ReadRecord(s, c)
    case Stop(_) =>
    case Rec(name, ib, next) =>
      ParseFromNamesOk(s, next);
  }

  /** The records of a whole directory stream. */
  function Parse(s: seq<byte>): seq<Entry> {
    ParseFrom(s, 0)
  }

  // ---------------------------------------------------------------------
  // Writing records (addLeafName)
  // ---------------------------------------------------------------------

  function EncodeEntry(e: Entry): (b: seq<byte>)
    ensures |b| == |e.name| + 1 + I_WIDTH
  {
    e.name + [0] + WordBytes(e.inum)
  }

  function Encode(es: seq<Entry>): seq<byte> {
    if es == [] then [] else EncodeEntry(es[0]) + Encode(es[1..])
  }

  /** A stream made only of whole records. */
  predicate WellFormed(s: seq<byte>) {
    Encode(Parse(s)) == s
  }

  lemma {:induction false} EncodeConcat(a: seq<Entry>, b: seq<Entry>)
    ensures Encode(a + b) == Encode(a) + Encode(b)
  {
    if a == [] {
      assert a + b == b;
    } else {
      assert (a + b)[0] == a[0];
      assert (a + b)[1..] == a[1..] + b;
      EncodeConcat(a[1..], b);
    }
  }

  /** `b` lies in `s` from position `c` on. */
  predicate At(s: seq<byte>, c: nat, b: seq<byte>) {
    c + |b| <= |s| && s[c..c + |b|] == b
  }

  lemma AtIndex(s: seq<byte>, c: nat, b: seq<byte>, k: nat)
    requires At(s, c, b) && k < |b|
    ensures s[c + k] == b[k]
  {
    assert s[c..c + |b|][k] == s[c + k];
  }

  lemma AtConcat(s: seq<byte>, c: nat, a: seq<byte>, b: seq<byte>)
    requires At(s, c, a + b)
    ensures At(s, c, a) && At(s, c + |a|, b)
  {
    assert s[c..c + |a|] == (a + b)[..|a|] == a;
    assert s[c + |a|..c + |a| + |b|] == (a + b)[|a|..] == b;
  }

  /** A list written at `c` is its first record followed by the rest. */
  lemma AtEncodeCons(s: seq<byte>, c: nat, es: seq<Entry>)
    requires es != [] && At(s, c, Encode(es))
    ensures At(s, c, EncodeEntry(es[0])) && At(s, c + |EncodeEntry(es[0])|, Encode(es[1..]))
    ensures |Encode(es)| == |EncodeEntry(es[0])| + |Encode(es[1..])|
  {
    AtConcat(s, c, EncodeEntry(es[0]), Encode(es[1..]));
  }

  /** A record written at `c` is read back from `c`. */
  lemma ReadEncodedEntry(s: seq<byte>, c: nat, e: Entry, n: nat)
    requires NameOk(e.name) && At(s, c, EncodeEntry(e)) && n == c + |EncodeEntry(e)|
    ensures ReadRecord(s, c) == Rec(e.name, WordBytes(e.inum), n)
  {
    var j := c + |e.name|;
    var img := EncodeEntry(e);
    AtIndex(s, c, img, |e.name|);
    forall k | c <= k < j
      ensures s[k] != 0
    {
      AtIndex(s, c, img, k - c);
      assert img[k - c] == e.name[k - c];
    }
    NulFromSkips(s, c, j);
    assert s[c..j] == img[..|e.name|] == e.name;
    var ib := Padded(s, j + 1, I_WIDTH);
    forall k | 0 <= k < I_WIDTH
      ensures ib[k] == WordBytes(e.inum)[k]
    {
      AtIndex(s, c, img, |e.name| + 1 + k);
    }
  }

  lemma ConsChain<T>(x: seq<T>, y: seq<T>, z: seq<T>, xs: seq<T>)
    requires xs != [] && x == [xs[0]] + y && y == xs[1..] + z
    ensures x == xs + z
  {
  }

  /** One record written at `c` is the first one parsed from `c`. */
  lemma ParseEncodedEntry(s: seq<byte>, c: nat, e: Entry, n: nat)
    requires NameOk(e.name) && At(s, c, EncodeEntry(e)) && n == c + |EncodeEntry(e)|
    ensures ParseFrom(s, c) == [e] + ParseFrom(s, n)
  {
    ReadEncodedEntry(s, c, e, n);
    WordBytesRoundTrip(e.inum);
    assert ParseFrom(s, c) == [Entry(e.name, WordOf(WordBytes(e.inum)))] + ParseFrom(s, n);
  }

  /** Records written at `c` are parsed back from `c`, whatever follows
      them from `d` on. */
  lemma {:induction false} ParseEncoded(s: seq<byte>, c: nat, es: seq<Entry>, d: nat)
    requires NamesOk(es) && At(s, c, Encode(es)) && d == c + |Encode(es)|
    ensures ParseFrom(s, c) == es + ParseFrom(s, d)
    decreases es
  {
    if es == [] {
      assert ParseFrom(s, c) == es + ParseFrom(s, d);
    } else {
      var n := c + |EncodeEntry(es[0])|;
      AtEncodeCons(s, c, es);
      assert NameOk(es[0].name) && NamesOk(es[1..]);
      ParseEncodedEntry(s, c, es[0], n);
      ParseEncoded(s, n, es[1..], d);
      ConsChain(ParseFrom(s, c), ParseFrom(s, n), ParseFrom(s, d), es);
    }
  }

  /** Round trip: the records of an encoded list are that list. */
  lemma ParseEncode(es: seq<Entry>)
    requires NamesOk(es)
    ensures Parse(Encode(es)) == es
    ensures WellFormed(Encode(es))
  {
    var s := Encode(es);
    assert At(s, 0, s);
    ParseEncoded(s, 0, es, |s|);
    assert ReadRecord(s, |s|).Stop?;
    assert ParseFrom(s, |s|) == [];
    assert es + [] == es;
  }

  /** Appending a record to a well-formed stream adds exactly that record
      at the end of its list. */
  lemma AppendRecord(s: seq<byte>, e: Entry)
    requires WellFormed(s) && NameOk(e.name)
    ensures Parse(s + EncodeEntry(e)) == Parse(s) + [e]
    ensures WellFormed(s + EncodeEntry(e))
  {
    var es := Parse(s);
    ParseFromNamesOk(s, 0);
    EncodeConcat(es, [e]);
    EncodeOne(e);
    assert NamesOk(es + [e]) by {
      forall j | 0 <= j < |es + [e]|
        ensures NameOk((es + [e])[j].name)
      {
        assert (es + [e])[j] == if j < |es| then es[j] else e;
      }
    }
    ParseEncode(es + [e]);
  }

  // ---------------------------------------------------------------------
  // Searching (setDirEntry, nameOf)
  // ---------------------------------------------------------------------

  datatype Key = ByName(name: seq<byte>) | ByInum(inum: Word)

  predicate Hit(e: Entry, k: Key) {
    match k
    case ByName(n) => e.name == n
    case ByInum(i) => e.inum == i
  }

  /** Index of the first record `k` hits, or `|es|`. */
  function FirstHit(es: seq<Entry>, k: Key): (i: nat)
    ensures i <= |es|
    ensures i < |es| ==> Hit(es[i], k)
    ensures forall j :: 0 <= j < i ==> !Hit(es[j], k)
  {
    if es == [] then 0
    else if Hit(es[0], k) then 0
    else 1 + FirstHit(es[1..], k)
  }

  /** The first record `k` hits. */
  function Lookup(es: seq<Entry>, k: Key): Option<Entry> {
    var i := FirstHit(es, k);
    if i < |es| then Some(es[i]) else None
  }

  /** The i-number `setDirEntry` reports for `Lookup`'s result: 0 when
      absent. */
  function InumOf(r: Option<Entry>): Word {
    if r.Some? then r.value.inum else 0
  }

  /** How a scan ends: at a hit, with the cursor after that record, or at
      the end of the directory, with the cursor where the reader stopped. */
  datatype Found = Found(entry: Entry, next: nat) | NotFound(next: nat)

  /** The loop of `setDirEntry`/`nameOf`: read records from `c` until one
      is hit or the stream ends. */
  function ScanFrom(s: seq<byte>, c: nat, k: Key): (f: Found)
    requires c <= |s|
    ensures f.next <= |s|
    decreases |s| - c
  {
    match ReadRecord(s, c)
    case Stop(next) => NotFound(next)
    case Rec(name, ib, next) =>
      var e := Entry(name, WordOf(ib));
      if Hit(e, k) then Found(e, next) else ScanFrom(s, next, k)
  }

  /** The scan finds exactly the first record of `ParseFrom` that `k` hits. */
  lemma {:induction false} ScanIsLookup(s: seq<byte>, c: nat, k: Key)
    requires c <= |s|
    ensures ScanFrom(s, c, k).Found? <==> Lookup(ParseFrom(s, c), k).Some?
    ensures ScanFrom(s, c, k).Found? ==> ScanFrom(s, c, k).entry == Lookup(ParseFrom(s, c), k).value
    decreases |s| - c
  {
    match ReadRecord(s, c)
    case Stop(_) =>
      assert ParseFrom(s, c) == [];
    case Rec(name, ib, next) =>
      var e := Entry(name, WordOf(ib));
      var rest := ParseFrom(s, next);
      assert ParseFrom(s, c) == [e] + rest;
      LookupCons(e, rest, k);
      if !Hit(e, k) {
        ScanIsLookup(s, next, k);
      }
  }

  /** A lookup in a list checks its head, then the rest. */
  lemma LookupCons(e: Entry, rest: seq<Entry>, k: Key)
    ensures Lookup([e] + rest, k) == if Hit(e, k) then Some(e) else Lookup(rest, k)
  {
    var es := [e] + rest;
    assert es[0] == e && es[1..] == rest;
    if !Hit(e, k) {
      assert FirstHit(es, k) == 1 + FirstHit(rest, k);
    }
  }

  /** Scanning records written at `c`, of which only the last is hit,
      finds that last record and leaves the cursor right after it. */
  lemma {:induction false} ScanEncoded(s: seq<byte>, c: nat, pre: seq<Entry>, x: Entry, k: Key, d: nat)
    requires NamesOk(pre + [x]) && At(s, c, Encode(pre + [x])) && d == c + |Encode(pre + [x])|
    requires forall j :: 0 <= j < |pre| ==> !Hit(pre[j], k)
    requires Hit(x, k)
    ensures ScanFrom(s, c, k) == Found(x, d)
    decreases pre
  {
    var xs := pre + [x];
    var e := xs[0];
    var n := c + |EncodeEntry(e)|;
    AtEncodeCons(s, c, xs);
    ReadEncodedEntry(s, c, e, n);
    WordBytesRoundTrip(e.inum);
    if pre == [] {
      assert xs[1..] == [];
    } else {
      assert xs[1..] == pre[1..] + [x];
      assert !Hit(pre[0], k);
      ScanEncoded(s, n, pre[1..], x, k, d);
    }
  }

  /** A name compared the way `setDirEntry` compares it: the `|n| + 1`
      bytes of the record image (`memcmp`) against the name and its NUL. */
  predicate MemMatches(image: seq<byte>, n: seq<byte>) {
    |n| + 1 <= |image| && image[..|n| + 1] == n + [0]
  }

  /** The comparison holds exactly when the record's name is the name. */
  lemma MemMatchesIffSameName(name: seq<byte>, ib: seq<byte>, n: seq<byte>)
    requires NulFree(name) && NulFree(n)
    ensures MemMatches(name + [0] + ib, n) <==> name == n
  {
    var image := name + [0] + ib;
    if MemMatches(image, n) {
      var m := n + [0];
      assert image[..|n| + 1] == m;
      forall k | 0 <= k < |n|
        ensures image[k] != 0
      {
        assert image[k] == m[k] == n[k];
      }
      assert image[|n|] == m[|n|] == 0;
      NulFromSkips(image, 0, |n|);
      CStrOfTerminated(name, ib);
      assert name == image[..|n|] == m[..|n|] == n;
    }
    if name == n {
      assert image[..|n| + 1] == n + [0];
    }
  }

  // ---------------------------------------------------------------------
  // Inserting (addLeafName)
  // ---------------------------------------------------------------------

  /** `addLeafName`'s truncation of a name to `limit` bytes. */
  function Truncate(n: seq<byte>, limit: nat): (t: seq<byte>)
    ensures |t| <= limit && |t| <= |n| && t == n[..|t|]
    ensures |n| <= limit ==> t == n
  {
    if |n| > limit then n[..limit] else n
  }

  /** The longest name `addLeafName` stores: `fileNameLengthMax - 1`, in
      `uint` arithmetic. */
  function NameLimit(fileNameLengthMax: Word): Word {
    Wrap(fileNameLengthMax - 1)
  }

  /** The stream after `addLeafName(n, ino)` scanned from cursor `c`: one
      record appended unless the scan reports a non-zero i-number. */
  function AddLeaf(s: seq<byte>, c: nat, n: seq<byte>, ino: Word): seq<byte>
    requires c <= |s|
  {
    if InumOf(Lookup(ParseFrom(s, c), ByName(n))) == 0 then s + EncodeEntry(Entry(n, ino)) else s
  }

  function Names(es: seq<Entry>): seq<seq<byte>> {
    seq(|es|, i requires 0 <= i < |es| => es[i].name)
  }

  predicate UniqueNames(es: seq<Entry>) {
    forall i, j :: 0 <= i < j < |es| ==> es[i].name != es[j].name
  }

  /** Every record holds a real inode: number 0 is never handed out. */
  predicate InumsNonZero(es: seq<Entry>) {
    forall i :: 0 <= i < |es| ==> es[i].inum != 0
  }

  lemma LookupByNameAbsent(es: seq<Entry>, n: seq<byte>)
    ensures Lookup(es, ByName(n)).None? <==> forall i :: 0 <= i < |es| ==> es[i].name != n
  {
  }

  /** Inserting an absent name into a directory read from the start
      appends exactly its record; a later lookup finds the new i-number,
      every other name resolves as before, and names stay unique. */
  lemma {:induction false} AddLeafAbsent(s: seq<byte>, n: seq<byte>, ino: Word)
    requires WellFormed(s) && NameOk(n) && ino != 0
    requires forall i :: 0 <= i < |Parse(s)| ==> Parse(s)[i].name != n
    ensures AddLeaf(s, 0, n, ino) == s + EncodeEntry(Entry(n, ino))
    ensures Parse(AddLeaf(s, 0, n, ino)) == Parse(s) + [Entry(n, ino)]
    ensures WellFormed(AddLeaf(s, 0, n, ino))
    ensures Lookup(Parse(AddLeaf(s, 0, n, ino)), ByName(n)) == Some(Entry(n, ino))
    ensures forall m :: m != n ==> Lookup(Parse(AddLeaf(s, 0, n, ino)), ByName(m)) == Lookup(Parse(s), ByName(m))
    ensures UniqueNames(Parse(s)) ==> UniqueNames(Parse(AddLeaf(s, 0, n, ino)))
  {
    var es := Parse(s);
    LookupByNameAbsent(es, n);
    AppendRecord(s, Entry(n, ino));
    var es' := es + [Entry(n, ino)];
    assert FirstHit(es', ByName(n)) == |es| by {
      FirstHitAppend(es, Entry(n, ino), ByName(n));
    }
    forall m | m != n
      ensures Lookup(es', ByName(m)) == Lookup(es, ByName(m))
    {
      FirstHitAppend(es, Entry(n, ino), ByName(m));
    }
  }

  /** A hit in `es` is still the first hit after appending; otherwise the
      appended record is the first hit if it is one at all. */
  lemma {:induction false} FirstHitAppend(es: seq<Entry>, e: Entry, k: Key)
    ensures FirstHit(es, k) < |es| ==> FirstHit(es + [e], k) == FirstHit(es, k)
    ensures FirstHit(es, k) == |es| ==> FirstHit(es + [e], k) == if Hit(e, k) then |es| else |es| + 1
  {
    if es != [] {
      assert (es + [e])[1..] == es[1..] + [e];
      FirstHitAppend(es[1..], e, k);
    }
  }

  /** Inserting a name that is present with a real i-number changes
      nothing. */
  lemma AddLeafPresent(s: seq<byte>, n: seq<byte>, ino: Word)
    requires InumsNonZero(Parse(s))
    requires exists i :: 0 <= i < |Parse(s)| && Parse(s)[i].name == n
    ensures AddLeaf(s, 0, n, ino) == s
  {
    var es := Parse(s);
    var i :| 0 <= i < |es| && es[i].name == n;
    assert FirstHit(es, ByName(n)) <= i;
  }

  /** "." and ".." as `Directory`'s constructor passes them. */
  const DOT: seq<byte> := [46]
  const DOTDOT: seq<byte> := [46, 46]

  /** A new directory over an empty stream holds "." for itself and ".."
      for its parent, and nothing else. */
  lemma SeedEmpty(ino: Word, parent: Word)
    requires ino != 0 && parent != 0
    ensures var s := AddLeaf(AddLeaf([], 0, DOT, ino), 0, DOTDOT, parent);
      && s == Encode([Entry(DOT, ino), Entry(DOTDOT, parent)])
      && Parse(s) == [Entry(DOT, ino), Entry(DOTDOT, parent)]
      && Lookup(Parse(s), ByName(DOT)) == Some(Entry(DOT, ino))
      && Lookup(Parse(s), ByName(DOTDOT)) == Some(Entry(DOTDOT, parent))
  {
    var e1, e2 := Entry(DOT, ino), Entry(DOTDOT, parent);
    SeedDot(ino);
    var s1 := AddLeaf([], 0, DOT, ino);
    DotsDiffer();
    assert Parse(s1)[0].name == DOT;
    AddLeafAbsent(s1, DOTDOT, parent);
    EncodePair(e1, e2);
  }

  /** The first step: "." alone. */
  lemma SeedDot(ino: Word)
    requires ino != 0
    ensures var s1 := AddLeaf([], 0, DOT, ino);
      && s1 == EncodeEntry(Entry(DOT, ino)) && Parse(s1) == [Entry(DOT, ino)] && WellFormed(s1)
      && Lookup(Parse(s1), ByName(DOT)) == Some(Entry(DOT, ino))
  {
    ParseEncode([]);
    assert Encode([]) == [];
    DotsDiffer();
    AddLeafAbsent([], DOT, ino);
  }

  /** "." and ".." are names, and different ones. */
  lemma DotsDiffer()
    ensures NameOk(DOT) && NameOk(DOTDOT) && DOT != DOTDOT
  {
    assert |DOT| != |DOTDOT|;
  }

  lemma EncodePair(e1: Entry, e2: Entry)
    ensures Encode([e1, e2]) == EncodeEntry(e1) + EncodeEntry(e2)
  {
    assert [e1, e2][1..] == [e2] && [e2][1..] == [];
    assert Encode([e2]) == EncodeEntry(e2) + Encode([]);
  }

  // ---------------------------------------------------------------------
  // Deleting (deleteFile)
  // ---------------------------------------------------------------------

  /** The stream after `deletePrecedingBytes(m)` with the cursor at `c`. */
  function Splice(s: seq<byte>, c: nat, m: nat): seq<byte>
    requires c <= |s|
  {
    var d := Min(m, c);
    s[..c - d] + s[c..]
  }

  /** Deleting, in a directory read from the start, the `|n| + 1 + I_WIDTH`
      bytes before the cursor a successful scan for `n` leaves removes
      exactly the first record named `n`: the stream stays well-formed and
      lists every other record in order. */
  lemma DeleteSplice(s: seq<byte>, n: seq<byte>)
    requires WellFormed(s)
    requires ScanFrom(s, 0, ByName(n)).Found?
    ensures var es := Parse(s); var i := FirstHit(es, ByName(n));
      && i < |es|
      && Splice(s, ScanFrom(s, 0, ByName(n)).next, |n| + 1 + I_WIDTH) == Encode(es[..i] + es[i + 1..])
      && Parse(Splice(s, ScanFrom(s, 0, ByName(n)).next, |n| + 1 + I_WIDTH)) == es[..i] + es[i + 1..]
  {
    var es := Parse(s);
    var i := FirstHit(es, ByName(n));
    ScanFindsRecord(s, n);
    var next, m := ScanFrom(s, 0, ByName(n)).next, |n| + 1 + I_WIDTH;
    var rest := es[..i] + es[i + 1..];
    SpliceRecord(s, es, i, next, m);
    var t := Splice(s, next, m);
    ParseFromNamesOk(s, 0);
    NamesOkAround(es, i);
    ParseEncode(rest);
    assert Parse(t) == rest;
  }

  /** Cutting the `i`-th record out of an encoded list leaves the encoding
      of the other records. */
  lemma SpliceRecord(s: seq<byte>, es: seq<Entry>, i: nat, next: nat, m: nat)
    requires s == Encode(es) && i < |es|
    requires m == |EncodeEntry(es[i])| && next == |Encode(es[..i])| + m
    ensures next <= |s| && Splice(s, next, m) == Encode(es[..i] + es[i + 1..])
  {
    var a, b, c := Encode(es[..i]), EncodeEntry(es[i]), Encode(es[i + 1..]);
    PrefixSplit(es, i);
    SpliceMiddle(a, b, c);
    EncodeConcat(es[..i], es[i + 1..]);
  }

  /** A successful scan for `n` from the start stops right after the
      first record named `n`. */
  lemma ScanFindsRecord(s: seq<byte>, n: seq<byte>)
    requires WellFormed(s)
    requires ScanFrom(s, 0, ByName(n)).Found?
    ensures var es := Parse(s); var i := FirstHit(es, ByName(n));
      && i < |es| && es[i].name == n
      && ScanFrom(s, 0, ByName(n)).next == |Encode(es[..i])| + |EncodeEntry(es[i])|
  {
    var key := ByName(n);
    var es := Parse(s);
    ScanIsLookup(s, 0, key);
    ParseFromNamesOk(s, 0);
    var i := FirstHit(es, key);
    var pre, x, post := es[..i], es[i], es[i + 1..];
    PrefixSplit(es, i);
    SplitAround(es, i);
    var a, b, c := Encode(pre), EncodeEntry(x), Encode(post);
    assert s == (a + b) + c;
    var d := |a| + |b|;
    assert Encode(pre + [x]) == a + b;
    TakeConcat(a + b, c);
    NamesOkAround(es, i);
    ScanEncoded(s, 0, pre, x, key, d);
  }

  lemma NamesOkAround(es: seq<Entry>, i: nat)
    requires NamesOk(es) && i < |es|
    ensures NamesOk(es[..i] + [es[i]]) && NamesOk(es[..i] + es[i + 1..])
  {
    var t, u := es[..i] + [es[i]], es[..i] + es[i + 1..];
    forall j | 0 <= j < |t|
      ensures NameOk(t[j].name)
    {
      assert t[j] == es[j];
    }
    forall j | 0 <= j < |u|
      ensures NameOk(u[j].name)
    {
      assert u[j] == if j < i then es[j] else es[j + 1];
    }
  }

  lemma SpliceMiddle(a: seq<byte>, b: seq<byte>, c: seq<byte>)
    ensures Splice(a + b + c, |a| + |b|, |b|) == a + c
  {
    var s := a + b + c;
    assert s[..|a|] == a;
    assert s[|a| + |b|..] == c;
  }

  /** The encoding of a list around its `i`-th record. */
  lemma PrefixSplit(es: seq<Entry>, i: nat)
    requires i < |es|
    ensures Encode(es[..i + 1]) == Encode(es[..i]) + EncodeEntry(es[i])
    ensures Encode(es) == Encode(es[..i]) + EncodeEntry(es[i]) + Encode(es[i + 1..])
  {
    var a, e, b := es[..i], es[i], es[i + 1..];
    SplitAround(es, i);
    EncodeConcat(a, [e]);
    EncodeOne(e);
    EncodeConcat(a + [e], b);
  }

  lemma SplitAround<T>(xs: seq<T>, i: nat)
    requires i < |xs|
    ensures xs[..i + 1] == xs[..i] + [xs[i]]
    ensures xs == xs[..i] + [xs[i]] + xs[i + 1..]
  {
  }

  lemma TakeConcat<T>(xs: seq<T>, ys: seq<T>)
    ensures (xs + ys)[0..|xs|] == xs
  {
  }

  lemma EncodeOne(e: Entry)
    ensures Encode([e]) == EncodeEntry(e)
  {
    assert [e][1..] == [];
  }

  /** `lsPrivate`'s count: the records less "." and "..", as a `uint`. */
  function OthersCount(s: seq<byte>): Word {
    Wrap(|Parse(s)| - 2)
  }

  /** In a directory holding "." and ".." and `others`, the count is the
      number of the others. */
  lemma OthersCountOfSeeded(dot: Entry, dotdot: Entry, others: seq<Entry>)
    requires NamesOk([dot, dotdot] + others) && |others| < WORD_MOD
    ensures OthersCount(Encode([dot, dotdot] + others)) == |others|
  {
    ParseEncode([dot, dotdot] + others);
    WrapSmall(|others|);
  }
}
