/** How far the copying loops of fork (kernel/arch/i386/process.c) have got, frame by frame. Between
    the copies memory changes outside the frames that processes hold, as the kernel heap grows. */
module AddressCopy {
  import opened Page
  import opened PagingSpec
  import opened AddressSpace

  /** Pages or tables present from place i on. */
  function Count<T>(s: seq<Option<T>>, i: nat): nat
    requires i <= |s|
    decreases |s| - i
  {
    if i == |s| then 0 else (if s[i].Some? then 1 else 0) + Count(s, i + 1)
  }

  // ---- progress of the loop over the pages of a table

  /** The first j pages of t are copied to c, whose frames are those in `held` and not in `kept`;
      the frames in `kept` are as they were. */
  ghost predicate TableProgress(m: Memory, n: Memory, t: TableRecord, c: TableRecord, j: nat, kept: set<nat>,
                                held: set<nat>) {
    && |c.pages| == 1024 == |t.pages|
    && (forall k: Index :: k < j ==>
         && (PageAt(t, k) <==> PageAt(c, k))
         && (PageAt(t, k) ==> n[c.pages[k].value] == m[t.pages[k].value])
         && n[c.frame][k] == if PageAt(t, k) then CopyEntry(c.pages[k].value, m[t.frame][k]) else 0)
    && (forall k: Index :: j <= k ==> c.pages[k].None? && n[c.frame][k] == 0)
    && (forall k: Index :: PageAt(c, k) ==> c.pages[k].value != c.frame)
    && (forall k: Index, l: Index :: PageAt(c, k) && PageAt(c, l) && k != l ==> c.pages[k].value != c.pages[l].value)
    && kept <= held
    && (forall f: FrameNumber :: f in kept ==> n[f] == m[f])
    && (forall f: FrameNumber :: TableOwns(c, f) <==> f in held && f !in kept)
  }

  /** A new table in a frame of its own. */
  lemma EmptyTableProgress(m: Memory, n: Memory, t: TableRecord, frame: FrameNumber, kept: set<nat>)
    requires |t.pages| == 1024 && frame !in kept && forall f: FrameNumber :: f in kept ==> n[f] == m[f]
    ensures TableProgress(m, n[frame := ZeroFrame()], t, TableRecord(frame, seq(1024, i => None)), 0,
                          kept, kept + {frame})
  {
  }

  /** It depends on the frames in `held` alone. */
  lemma TableProgressStays(m: Memory, n: Memory, n2: Memory, t: TableRecord, c: TableRecord, j: nat,
                           kept: set<nat>, held: set<nat>)
    requires TableProgress(m, n, t, c, j, kept, held) && forall f: FrameNumber :: f in held ==> n2[f] == n[f]
    ensures TableProgress(m, n2, t, c, j, kept, held)
  {
    assert TableOwns(c, c.frame);
    forall k: Index | PageAt(c, k)
      ensures n2[c.pages[k].value] == n[c.pages[k].value]
    {
      assert TableOwns(c, c.pages[k].value);
    }
  }

  /** Copying page j to the frame f. */
  function CopyPage(n: Memory, t: TableRecord, c: TableRecord, j: Index, f: FrameNumber): Memory
    requires PageAt(t, j)
  {
    SetEntry(n[f := n[t.pages[j].value]], c.frame, j, CopyEntry(f, n[t.frame][j]))
  }

  lemma CopyPageProgress(m: Memory, n: Memory, t: TableRecord, c: TableRecord, j: Index,
                         kept: set<nat>, held: set<nat>, f: FrameNumber)
    requires TableProgress(m, n, t, c, j, kept, held) && PageAt(t, j) && f !in held
    requires forall g: FrameNumber :: TableOwns(t, g) ==> g in kept
    ensures TableProgress(m, CopyPage(n, t, c, j, f), t, c.(pages := c.pages[j := Some(f)]), j + 1, kept, held + {f})
  {
    var n2, d := CopyPage(n, t, c, j, f), c.(pages := c.pages[j := Some(f)]);
    assert TableOwns(t, t.frame) && TableOwns(t, t.pages[j].value) && TableOwns(c, c.frame);
    forall g: FrameNumber
      ensures TableOwns(d, g) <==> TableOwns(c, g) || g == f
    {
      if TableOwns(c, g) && g != c.frame {
        var k: nat :| PageAt(c, k) && c.pages[k].value == g;
        assert PageAt(d, k) && d.pages[k].value == g;
      }
      assert PageAt(d, j) && d.pages[j].value == f;
    }
    forall k: Index | PageAt(c, k)
      ensures c.pages[k].value in held && c.pages[k].value !in kept && n2[c.pages[k].value] == n[c.pages[k].value]
    {
      assert TableOwns(c, c.pages[k].value);
    }
  }

  lemma SkipPage(m: Memory, n: Memory, t: TableRecord, c: TableRecord, j: Index, kept: set<nat>, held: set<nat>)
    requires TableProgress(m, n, t, c, j, kept, held) && t.pages[j].None?
    ensures TableProgress(m, n, t, c, j + 1, kept, held)
  {
  }

  // ---- progress of the loop over the tables

  ghost predicate ForkProgress(m: Memory, n: Memory, p: ProcessMemory, c: ProcessMemory, i: nat, kept: set<nat>,
                               held: set<nat>) {
    && |p.tables| == |c.tables| == 1024
    && (forall k: Index :: k < i ==>
         && (TableAt(p, k) <==> TableAt(c, k))
         && (TableAt(p, k) ==> TableCopied(m, n, p.tables[k].value, c.tables[k].value))
         && n[c.directory][k] ==
            if TableAt(p, k) then CopyEntry(c.tables[k].value.frame, m[p.directory][k]) else 0)
    && (forall k: Index :: i <= k ==> c.tables[k].None? && n[c.directory][k] == 0)
    && kept <= held
    && (forall f: FrameNumber :: f in kept ==> n[f] == m[f])
    && (forall f: FrameNumber :: Owns(c, f) <==> f in held && f !in kept)
    && PagesApart(c) && PagesDistinct(c) && TablesDistinct(c)
  }

  /** A new directory in a frame of its own. */
  lemma EmptyForkProgress(m: Memory, n: Memory, p: ProcessMemory, directory: FrameNumber, kept: set<nat>)
    requires |p.tables| == 1024 && directory !in kept && forall f: FrameNumber :: f in kept ==> n[f] == m[f]
    ensures ForkProgress(m, n[directory := ZeroFrame()], p, ProcessMemory(directory, seq(1024, i => None)), 0,
                         kept, kept + {directory})
  {
  }

  lemma SkipTable(m: Memory, n: Memory, p: ProcessMemory, c: ProcessMemory, i: Index, kept: set<nat>, held: set<nat>)
    requires ForkProgress(m, n, p, c, i, kept, held) && p.tables[i].None?
    ensures ForkProgress(m, n, p, c, i + 1, kept, held)
  {
  }

  /** A finished table is a copy of the parent's as it was before fork. */
  lemma TableDone(m: Memory, n: Memory, n1: Memory, n2: Memory, t: TableRecord, c: TableRecord,
                  kept: set<nat>, held: set<nat>)
    requires TableProgress(n, n1, t, c, 1024, kept, held)
    requires forall f: FrameNumber :: TableOwns(t, f) ==> n[f] == m[f]
    requires forall f: FrameNumber :: TableOwns(c, f) ==> n2[f] == n1[f]
    ensures TableCopied(m, n2, t, c)
  {
  }

  /** A copied table stays copied while its frames are left alone. */
  lemma TableStays(m: Memory, n: Memory, n2: Memory, t: TableRecord, c: TableRecord)
    requires TableCopied(m, n, t, c) && forall f: FrameNumber :: TableOwns(c, f) ==> n2[f] == n[f]
    ensures TableCopied(m, n2, t, c)
  {
  }

  /** Entering table ct at place i of the child. */
  function WithTable(c: ProcessMemory, i: Index, ct: TableRecord): ProcessMemory
    requires |c.tables| == 1024
  {
    c.(tables := c.tables[i := Some(ct)])
  }

  lemma OwnsWithTable(c: ProcessMemory, i: Index, ct: TableRecord, f: FrameNumber)
    requires |c.tables| == 1024 && c.tables[i].None?
    ensures Owns(WithTable(c, i, ct), f) <==> Owns(c, f) || TableOwns(ct, f)
  {
    var d := WithTable(c, i, ct);
    if TableOwns(ct, f) { assert TableAt(d, i) && TableOwns(d.tables[i].value, f); }
    if Owns(c, f) && f != c.directory {
      var k: nat :| TableAt(c, k) && TableOwns(c.tables[k].value, f);
      assert TableAt(d, k) && TableOwns(d.tables[k].value, f);
    }
  }

  /** The new table's frames keep pages and tables apart from one another. */
  lemma PagesStayApart(c: ProcessMemory, i: Index, ct: TableRecord)
    requires |c.tables| == 1024 && c.tables[i].None? && PagesApart(c) && PagesDistinct(c) && TablesDistinct(c)
    requires forall f: FrameNumber :: TableOwns(ct, f) ==> !Owns(c, f)
    requires forall j: nat :: PageAt(ct, j) ==> ct.pages[j].value != ct.frame
    requires forall j: nat, l: nat :: PageAt(ct, j) && PageAt(ct, l) && j != l ==>
               ct.pages[j].value != ct.pages[l].value
    ensures var d := WithTable(c, i, ct); PagesApart(d) && PagesDistinct(d) && TablesDistinct(d)
  {
    var d := WithTable(c, i, ct);
    assert Owns(c, c.directory) && TableOwns(ct, ct.frame);
    forall k: nat | TableAt(d, k)
      ensures k != i ==> TableAt(c, k) && Owns(c, d.tables[k].value.frame)
      ensures forall j: nat :: PageAt(d.tables[k].value, j) ==>
                if k == i then TableOwns(ct, d.tables[k].value.pages[j].value)
                else Owns(c, d.tables[k].value.pages[j].value)
    {
      assert TableOwns(d.tables[k].value, d.tables[k].value.frame);
      forall j: nat | PageAt(d.tables[k].value, j)
        ensures if k == i then TableOwns(ct, d.tables[k].value.pages[j].value)
                else Owns(c, d.tables[k].value.pages[j].value)
      {
        assert TableOwns(d.tables[k].value, d.tables[k].value.pages[j].value);
      }
    }
  }

  lemma NotDirectory(c: ProcessMemory, k: nat, f: FrameNumber)
    requires PagesApart(c) && TableAt(c, k) && TableOwns(c.tables[k].value, f)
    ensures f != c.directory && Owns(c, f)
  {
  }

  /** Setting the kernel's entry and the self-map completes the copy. */
  lemma ForkDone(m: Memory, n: Memory, p: ProcessMemory, c: ProcessMemory, kept: set<nat>, held: set<nat>,
                 kernelTable: FrameNumber)
    requires ForkProgress(m, n, p, c, 1024, kept, held) && p.tables[KERNEL].None? && p.tables[LAST].None?
    requires forall f: FrameNumber :: Owns(p, f) ==> f in kept
    ensures var d := n[c.directory][LAST := TableEntry(c.directory)][KERNEL := TableEntry(kernelTable)];
      Copied(m, n[c.directory := d], p, c, kernelTable)
  {
    var d := n[c.directory][LAST := TableEntry(c.directory)][KERNEL := TableEntry(kernelTable)];
    assert Owns(c, c.directory);
    forall k: Index | TableAt(p, k)
      ensures TableCopied(m, n[c.directory := d], p.tables[k].value, c.tables[k].value)
    {
      forall f: FrameNumber | TableOwns(c.tables[k].value, f) ensures n[c.directory := d][f] == n[f] {
        NotDirectory(c, k, f);
      }
      TableStays(m, n, n[c.directory := d], p.tables[k].value, c.tables[k].value);
    }
  }

  /** One more table: copied to n1 and entered in the child's directory. */
  lemma TableEntered(m: Memory, n: Memory, n1: Memory, p: ProcessMemory, c: ProcessMemory, i: Index, ct: TableRecord,
                     kept: set<nat>, held: set<nat>, held1: set<nat>)
    requires ForkProgress(m, n, p, c, i, kept, held) && TableAt(p, i)
    requires TableProgress(n, n1, p.tables[i].value, ct, 1024, held, held1)
    requires forall f: FrameNumber :: Owns(p, f) ==> f in kept
    ensures ForkProgress(m, SetEntry(n1, c.directory, i, CopyEntry(ct.frame, n1[p.directory][i])), p,
                         WithTable(c, i, ct),
                         i + 1, kept, held1)
  {
    var n2 := SetEntry(n1, c.directory, i, CopyEntry(ct.frame, n1[p.directory][i]));
    var d := WithTable(c, i, ct);
    forall f: FrameNumber
      ensures Owns(d, f) <==> Owns(c, f) || TableOwns(ct, f)
    {
      OwnsWithTable(c, i, ct, f);
    }
    PagesStayApart(c, i, ct);
    assert Owns(p, p.directory) && Owns(c, c.directory);
    forall k: Index | k < i + 1 && TableAt(p, k)
      ensures TableCopied(m, n2, p.tables[k].value, d.tables[k].value)
    {
      forall f: FrameNumber | TableOwns(p.tables[k].value, f) ensures Owns(p, f) {}
      if k < i {
        forall f: FrameNumber | TableOwns(c.tables[k].value, f)
          ensures n2[f] == n[f]
        {
          NotDirectory(c, k, f);
        }
        TableStays(m, n, n2, p.tables[k].value, c.tables[k].value);
      } else {
        TableDone(m, n, n1, n2, p.tables[i].value, ct, held, held1);
      }
    }
  }
}
