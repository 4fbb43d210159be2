/**
 The DN indexer of cric.go (`updateCMSRecords`): from a snapshot of CRIC
 records keyed by their primary key, build the secondary index `cmsRecords`
 keyed by the common-name tokens of every record's distinguished names.
 */
module DNIndex {
  import opened GoStrings

  /** The separator each DN is split on. */
  const CNSeparator: string := "/CN="

  /**
   One CRIC entry (`cmsauth.CricEntry`). The indexer reads only its list of
   distinguished names; every other field is carried along untouched and is
   abstracted here as `attributes`.
   */
  datatype CricEntry = CricEntry(dns: seq<string>, attributes: map<string, string>)

  /** `cmsauth.CricRecords`: a map from a key to an entry. */
  type CricRecords = map<string, CricEntry>

  predicate IsAsciiDigit(c: char)
  {
    '0' <= c <= '9'
  }

  /**
   `intPattern.MatchString(v)` for the pattern `^\d+$`: in Go's regular
   expressions `\d` is an ASCII digit and `$` (without the multi-line flag)
   matches only at the end of the text, so the pattern accepts exactly the
   non-empty strings of digits 0-9. Such a piece is a certificate serial
   number.
   */
  predicate MatchesIntPattern(v: string)
  {
    |v| > 0 && forall i :: 0 <= i < |v| ==> IsAsciiDigit(v[i])
  }

  /** A split piece survives both filters: it neither starts with `/` nor is a serial number. */
  predicate Indexable(v: string)
  {
    !HasPrefix(v, "/") && !MatchesIntPattern(v)
  }

  /** The candidate tokens of one DN: `strings.Split(dn, "/CN=")`. */
  function Pieces(dn: string): seq<string>
  {
    Split(dn, CNSeparator)
  }

  /** `dn` contributes the key `k` to the index. */
  predicate DNYields(dn: string, k: string)
  {
    k in Pieces(dn) && Indexable(k)
  }

  /** Some DN of `dns` contributes the key `k`. */
  predicate SomeDNYields(dns: seq<string>, k: string)
  {
    exists i :: 0 <= i < |dns| && DNYields(dns[i], k)
  }

  /** The entry `e` contributes the key `k` to the index. */
  predicate Yields(e: CricEntry, k: string)
  {
    SomeDNYields(e.dns, k)
  }

  /*
   The index is built by mutation in three nested loops (records, their DNs,
   the pieces of each DN). The three folds below replay those loops in the
   same order, each one step per element, so that a later assignment
   overwrites an earlier one exactly as `cmsRecords[v] = r` does.
   */

  /** The innermost loop: assign `e` to every surviving piece of one DN. */
  function AddPieces(acc: CricRecords, pieces: seq<string>, e: CricEntry): (r: CricRecords)
    ensures forall k :: k in r <==> k in acc || (k in pieces && Indexable(k))
    ensures forall k :: k in r ==> r[k] == if k in pieces && Indexable(k) then e else acc[k]
    decreases |pieces|
  {
    if |pieces| == 0 then acc
    else
      var prev := AddPieces(acc, pieces[..|pieces| - 1], e);
      var v := pieces[|pieces| - 1];
      assert pieces == pieces[..|pieces| - 1] + [v];
      if Indexable(v) then prev[v := e] else prev
  }

  /** The DNs yielding a key are those before the last one, plus possibly the last one. */
  lemma SomeDNYieldsLast(dns: seq<string>)
    requires |dns| > 0
    ensures forall k :: SomeDNYields(dns, k) <==> SomeDNYields(dns[..|dns| - 1], k) || DNYields(dns[|dns| - 1], k)
  {
    var init := dns[..|dns| - 1];
    forall k
      ensures SomeDNYields(dns, k) <==> SomeDNYields(init, k) || DNYields(dns[|dns| - 1], k)
    {
      if SomeDNYields(init, k) {
        var i :| 0 <= i < |init| && DNYields(init[i], k);
        assert dns[i] == init[i];
      }
    }
  }

  /** The middle loop: every DN of one entry. */
  function AddDNs(acc: CricRecords, dns: seq<string>, e: CricEntry): (r: CricRecords)
    ensures forall k :: k in r <==> k in acc || SomeDNYields(dns, k)
    ensures forall k :: k in r ==> r[k] == if SomeDNYields(dns, k) then e else acc[k]
    decreases |dns|
  {
    if |dns| == 0 then acc
    else
      var init := dns[..|dns| - 1];
      var prev := AddDNs(acc, init, e);
      var r := AddPieces(prev, Pieces(dns[|dns| - 1]), e);
      SomeDNYieldsLast(dns);
      r
  }

  /**
   The position of the last entry of `es` that contributes `k`, or -1 when
   none does.
   */
  function LastYielder(es: seq<CricEntry>, k: string): (j: int)
    ensures -1 <= j < |es|
    ensures j >= 0 ==> Yields(es[j], k)
    ensures forall i :: j < i < |es| ==> !Yields(es[i], k)
    decreases |es|
  {
    if |es| == 0 then -1
    else if Yields(es[|es| - 1], k) then |es| - 1
    else LastYielder(es[..|es| - 1], k)
  }

  /**
   The outer loop over the records, in the order they are enumerated. A key
   ends up holding the LAST enumerated entry that contributes it.
   */
  function AddEntries(acc: CricRecords, es: seq<CricEntry>): (r: CricRecords)
    ensures forall k :: k in r <==> k in acc || LastYielder(es, k) >= 0
    ensures forall k :: k in r ==> r[k] == if LastYielder(es, k) >= 0 then es[LastYielder(es, k)] else acc[k]
    decreases |es|
  {
    if |es| == 0 then acc
    else
      var init := es[..|es| - 1];
      var prev := AddEntries(acc, init);
      var last := es[|es| - 1];
      var r := AddDNs(prev, last.dns, last);
      assert forall k :: r[k] == (if LastYielder(es, k) >= 0 then es[LastYielder(es, k)] else acc[k]) <== k in r by {
        forall k | k in r
          ensures r[k] == if LastYielder(es, k) >= 0 then es[LastYielder(es, k)] else acc[k]
        {
          if !Yields(last, k) {
            var j := LastYielder(init, k);
            assert LastYielder(es, k) == j;
            if j >= 0 {
              assert es[j] == init[j];
            }
          }
        }
      }
      r
  }

  /** The index built from the records enumerated in the order `es`, starting from an empty map. */
  function BuildIndex(es: seq<CricEntry>): CricRecords
  {
    AddEntries(map[], es)
  }

  /** Soundness and completeness of the index over an enumeration, and last-wins on collisions. */
  lemma BuildIndexLastWins(es: seq<CricEntry>, k: string)
    ensures k in BuildIndex(es) <==> exists i :: 0 <= i < |es| && Yields(es[i], k)
    ensures k in BuildIndex(es) ==>
      exists i :: 0 <= i < |es| && BuildIndex(es)[k] == es[i] && Yields(es[i], k)
        && forall i' :: i < i' < |es| ==> !Yields(es[i'], k)
  {
  }

  /** `order` lists every key of `recs` exactly once: one possible order of Go's `range` over the map. */
  predicate IsEnumeration(order: seq<string>, recs: CricRecords)
  {
    && (forall i :: 0 <= i < |order| ==> order[i] in recs)
    && (forall k :: k in recs ==> k in order)
    && (forall i, j :: 0 <= i < j < |order| ==> order[i] != order[j])
  }

  /** The entries of `recs` in the order `order`. */
  function Entries(recs: CricRecords, order: seq<string>): (es: seq<CricEntry>)
    requires forall i :: 0 <= i < |order| ==> order[i] in recs
    ensures |es| == |order|
    ensures forall i :: 0 <= i < |order| ==> es[i] == recs[order[i]]
  {
    seq(|order|, i requires 0 <= i < |order| => recs[order[i]])
  }

  /**
   What `cmsRecords` is after `updateCMSRecords(recs)`, independently of the
   enumeration order: its keys are exactly the surviving pieces of the DNs of
   the records, and each key maps to a record of `recs` that has a DN
   producing that key.
   */
  ghost predicate IsDNIndexOf(idx: CricRecords, recs: CricRecords)
  {
    && (forall k :: k in idx <==> exists key :: key in recs && Yields(recs[key], k))
    && (forall k :: k in idx ==> idx[k] in recs.Values && Yields(idx[k], k))
  }

  /** Whatever order Go's `range` picks, the index built is a DN index of the records. */
  lemma IndexOfEnumeration(recs: CricRecords, order: seq<string>)
    requires IsEnumeration(order, recs)
    ensures IsDNIndexOf(BuildIndex(Entries(recs, order)), recs)
  {
    var es := Entries(recs, order);
    var idx := BuildIndex(es);
    forall k
      ensures k in idx <==> exists key :: key in recs && Yields(recs[key], k)
    {
      BuildIndexLastWins(es, k);
      if key :| key in recs && Yields(recs[key], k) {
        var i :| 0 <= i < |order| && order[i] == key;
        assert Yields(es[i], k);
      }
    }
    forall k | k in idx
      ensures idx[k] in recs.Values && Yields(idx[k], k)
    {
      BuildIndexLastWins(es, k);
      var i :| 0 <= i < |es| && idx[k] == es[i] && Yields(es[i], k);
      assert recs[order[i]] == idx[k];
    }
  }

  /** All records of `recs` that contribute `k` are the same entry: the key has no collision. */
  ghost predicate NoCollision(recs: CricRecords, k: string)
  {
    forall a, b :: a in recs && b in recs && Yields(recs[a], k) && Yields(recs[b], k) ==> recs[a] == recs[b]
  }

  /**
   The enumeration order of `range` cannot change which keys the index has,
   nor the entry of a key without a collision; it decides only which of
   several colliding records a key ends up holding.
   */
  lemma IndexDeterminedUpToCollisions(recs: CricRecords, idx1: CricRecords, idx2: CricRecords)
    requires IsDNIndexOf(idx1, recs) && IsDNIndexOf(idx2, recs)
    ensures idx1.Keys == idx2.Keys
    ensures forall k :: k in idx1 && NoCollision(recs, k) ==> idx1[k] == idx2[k]
  {
  }

  /**
   `updateCMSRecords`: the three nested loops of the source, over the
   records in the order `order` that Go's `range` happens to pick. The
   result is a DN index of the records and is built from an empty map, so
   nothing of any earlier index survives.
   */
  method UpdateCMSRecords(cricRecords: CricRecords, order: seq<string>) returns (cmsRecords: CricRecords)
    requires IsEnumeration(order, cricRecords)
    ensures cmsRecords == BuildIndex(Entries(cricRecords, order))
    ensures IsDNIndexOf(cmsRecords, cricRecords)
  {
    ghost var es := Entries(cricRecords, order);
    cmsRecords := map[];
    for n := 0 to |order|
      invariant cmsRecords == AddEntries(map[], es[..n])
    {
      var r := cricRecords[order[n]];
      cmsRecords := IndexEntry(cmsRecords, r);
      AddEntriesStep(es, n);
    }
    assert es[..|order|] == es;
    IndexOfEnumeration(cricRecords, order);
  }

  /** One more record of the enumeration, as one more iteration of the outer loop. */
  lemma AddEntriesStep(es: seq<CricEntry>, n: nat)
    requires n < |es|
    ensures AddEntries(map[], es[..n + 1]) == AddDNs(AddEntries(map[], es[..n]), es[n].dns, es[n])
  {
    assert es[..n + 1][..n] == es[..n];
  }

  /** One more DN of a record, as one more iteration of the middle loop. */
  lemma AddDNsStep(acc: CricRecords, dns: seq<string>, d: nat, e: CricEntry)
    requires d < |dns|
    ensures AddDNs(acc, dns[..d + 1], e) == AddPieces(AddDNs(acc, dns[..d], e), Pieces(dns[d]), e)
  {
    assert dns[..d + 1][..d] == dns[..d];
  }

  /** One more piece of a DN, as one more iteration of the innermost loop. */
  lemma AddPiecesStep(acc: CricRecords, pieces: seq<string>, p: nat, e: CricEntry)
    requires p < |pieces|
    ensures AddPieces(acc, pieces[..p + 1], e) ==
      var prev := AddPieces(acc, pieces[..p], e);
      if Indexable(pieces[p]) then prev[pieces[p] := e] else prev
  {
    assert pieces[..p + 1][..p] == pieces[..p];
  }

  /** The body of the outer loop: index every DN of the record `r`. */
  method IndexEntry(cms: CricRecords, r: CricEntry) returns (cms': CricRecords)
    ensures cms' == AddDNs(cms, r.dns, r)
  {
    cms' := cms;
    for d := 0 to |r.dns|
      invariant cms' == AddDNs(cms, r.dns[..d], r)
    {
      var pieces := Split(r.dns[d], CNSeparator);
      cms' := IndexPieces(cms', pieces, r);
      AddDNsStep(cms, r.dns, d, r);
    }
    assert r.dns[..|r.dns|] == r.dns;
  }

  /** The innermost loop: map each piece of one DN that passes both filters to `r`. */
  method IndexPieces(cms: CricRecords, pieces: seq<string>, r: CricEntry) returns (cms': CricRecords)
    ensures cms' == AddPieces(cms, pieces, r)
  {
    cms' := cms;
    for p := 0 to |pieces|
      invariant cms' == AddPieces(cms, pieces[..p], r)
    {
      var v := pieces[p];
      if !HasPrefix(v, "/") {
        if !MatchesIntPattern(v) {
          cms' := cms'[v := r];
        }
      }
      AddPiecesStep(cms, pieces, p, r);
    }
    assert pieces[..|pieces|] == pieces;
  }

  /** A non-empty piece of ASCII digits (a serial number) is never a key of the index. */
  lemma SerialNeverKey(es: seq<CricEntry>, k: string)
    requires MatchesIntPattern(k)
    ensures k !in BuildIndex(es)
  {
  }

  /** A piece that starts with `/`, such as the leading `/DC=...` segment of a DN, is never a key. */
  lemma SlashPieceNeverKey(es: seq<CricEntry>, k: string)
    requires HasPrefix(k, "/")
    ensures k !in BuildIndex(es)
  {
  }

  /**
   The empty string is not a serial number, so an empty piece (from an
   empty DN, or a DN that ends in `/CN=`) becomes the key `""`, whatever
   the other records; without a collision on `""` it maps to that record.
   */
  lemma EmptyPieceIsKey(recs: CricRecords, idx: CricRecords, key: string, dn: string)
    requires IsDNIndexOf(idx, recs)
    requires key in recs && dn in recs[key].dns
    requires dn == "" || (|dn| >= 4 && dn[|dn| - 4..] == CNSeparator)
    ensures "" in idx
    ensures NoCollision(recs, "") ==> idx[""] == recs[key]
  {
    var e := recs[key];
    var i :| 0 <= i < |e.dns| && e.dns[i] == dn;
    if dn == "" {
      assert Pieces(dn) == [""];
    } else {
      CNSeparatorBorderless();
      TrailingSeparatorGivesEmptyPiece(dn, CNSeparator);
      assert Pieces(dn)[|Pieces(dn)| - 1] == "";
    }
    assert DNYields(e.dns[i], "");
    assert Yields(recs[key], "");
    var a :| a in recs && recs[a] == idx[""];
  }

  /** `"/CN="` cannot overlap itself. */
  lemma CNSeparatorBorderless()
    ensures Borderless(CNSeparator)
  {
    forall n | 0 < n < |CNSeparator|
      ensures !IsBorder(CNSeparator, n)
    {
      assert CNSeparator[..n][0] == '/';
      assert CNSeparator[|CNSeparator| - n..][0] != '/';
    }
  }

  /**
   A DN without any `/CN=` and without a leading `/` is indexed whole, like
   `"CN=foo"`, whatever the other records; without a collision on it, it
   maps to its record.
   */
  lemma UnsplitDNIndexedWhole(recs: CricRecords, idx: CricRecords, key: string, dn: string)
    requires IsDNIndexOf(idx, recs)
    requires key in recs && dn in recs[key].dns
    requires !Contains(dn, CNSeparator) && Indexable(dn)
    ensures dn in idx
    ensures NoCollision(recs, dn) ==> idx[dn] == recs[key]
  {
    var e := recs[key];
    var i :| 0 <= i < |e.dns| && e.dns[i] == dn;
    assert Pieces(dn) == [dn];
    assert DNYields(e.dns[i], dn);
    assert Yields(recs[key], dn);
    var a :| a in recs && recs[a] == idx[dn];
  }

  /** A string in which no `/` is followed by `C` cannot contain `"/CN="`. */
  lemma NoSeparatorWithoutSlashC(p: string)
    requires forall i :: 0 <= i < |p| - 1 && p[i] == '/' ==> p[i + 1] != 'C'
    ensures !Contains(p, CNSeparator)
  {
    forall i | 0 <= i && i + |CNSeparator| <= |p|
      ensures !OccursAt(p, CNSeparator, i)
    {
      assert p[i..i + 4][0] == p[i];
      assert p[i..i + 4][1] == p[i + 1];
    }
  }

  /** `strings.Join` of three pieces, written out. */
  lemma JoinThree(a: string, b: string, c: string, sep: string)
    ensures Join([a, b, c], sep) == a + sep + b + sep + c
  {
    assert [a, b, c][1..] == [b, c] && [b, c][1..] == [c];
    assert Join([b, c], sep) == b + sep + c;
    assert Join([a, b, c], sep) == a + sep + (b + sep + c);
    assert a + sep + (b + sep + c) == a + sep + b + sep + c;
  }

  /**
   A DN of the usual shape: a path of `/`-prefixed components, a serial
   number and a common name. Only the common name becomes a key.
   */
  lemma CommonNameAfterSerial(path: string, serial: string, name: string)
    requires HasPrefix(path, "/") && MatchesIntPattern(serial) && Indexable(name)
    requires !Contains(path, CNSeparator) && !Contains(serial, CNSeparator) && !Contains(name, CNSeparator)
    ensures Pieces(path + CNSeparator + serial + CNSeparator + name) == [path, serial, name]
    ensures forall k :: DNYields(path + CNSeparator + serial + CNSeparator + name, k) <==> k == name
  {
    var parts := [path, serial, name];
    CNSeparatorBorderless();
    JoinThree(path, serial, name, CNSeparator);
    SplitJoin(parts, CNSeparator);
  }

  /** A record with a single DN that yields a single key is indexed under that key alone. */
  lemma SingleKeyIndex(e: CricEntry, name: string)
    requires |e.dns| == 1
    requires forall k :: DNYields(e.dns[0], k) <==> k == name
    ensures BuildIndex([e]) == map[name := e]
  {
    var idx := BuildIndex([e]);
    forall k
      ensures k in idx <==> k == name
    {
      BuildIndexLastWins([e], k);
      assert Yields(e, k) <==> DNYields(e.dns[0], k);
    }
    BuildIndexLastWins([e], name);
  }

  /**
   The DN `"/DC=ch/DC=cern/OU=Organic Units/CN=12345/CN=John Smith"`: a
   record that has it is indexed under `"John Smith"` only; the leading
   `/DC=...` piece and the serial `12345` are dropped.
   */
  lemma WorkedExample(e: CricEntry)
    requires e.dns == ["/DC=ch/DC=cern/OU=Organic Units" + CNSeparator + "12345" + CNSeparator + "John Smith"]
    ensures BuildIndex([e]) == map["John Smith" := e]
  {
    var path, serial, name := "/DC=ch/DC=cern/OU=Organic Units", "12345", "John Smith";
    NoSeparatorWithoutSlashC(path);
    NoSeparatorWithoutSlashC(serial);
    NoSeparatorWithoutSlashC(name);
    assert Indexable(name) by {
      assert name[0] == 'J';
    }
    CommonNameAfterSerial(path, serial, name);
    SingleKeyIndex(e, name);
  }
}
