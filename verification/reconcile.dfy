/**
  `scan_photos_folder`: bring the photo table in line with the image files
  in the photo directory.  The directory listing, the table and the clock
  are passed in as values; the table is a map from file name to row, which
  makes the unique, non-null `filename` column a key by construction.
 */
module Reconcile {
  import opened Wrappers
  import Title
  import Extensions
  import PathName
  import Numerals
  import Sync

  /** A reading of `datetime.utcnow()`; the detail view orders by it too. */
  type Timestamp = int

  /** A row of the `photos` table, without its `filename` key and its
      store-assigned `id`.  `tags` is the decoded tag list. */
  datatype Photo = Photo(
    title: Option<string>,
    description: Option<string>,
    location: Option<string>,
    takenAt: Option<Timestamp>,
    uploadedAt: Timestamp,
    tags: seq<string>,
    exifData: Option<string>)

  /** The photo table keyed by file name. */
  type Store = map<string, Photo>

  /** The row the scan creates for a file it has not seen: a derived title,
      the scan's clock reading, and nothing else. */
  function NewPhoto(filename: string, now: Timestamp): (p: Photo)
    ensures p.title.Some? && (filename != "" ==> p.title.value != "")
    ensures p.uploadedAt == now
    ensures p.description.None? && p.location.None? && p.takenAt.None?
    ensures p.tags == [] && p.exifData.None?
  {
    Photo(Some(Title.FilenameToTitle(filename)), None, None, None, now, [], None)
  }

  /** `disk_files`: the names of regular files in the directory whose
      extension the filter accepts. */
  function DiskFiles(listing: set<string>): (diskFiles: set<string>)
    ensures diskFiles <= listing
    ensures forall f :: f in diskFiles ==> |PathName.Stem(f)| > 0
  {
    set f | f in listing && Extensions.IsSupported(f)
  }

  /** A listed file is on disk for the scan exactly when its name ends in
      one of the image extensions, in any letter case. */
  lemma DiskFilesMembers(listing: set<string>, f: string)
    ensures f in DiskFiles(listing) <==>
      f in listing && exists e :: e in Extensions.ImageExtensions && Extensions.EndsWithExtension(f, e)
  {
    Extensions.SupportedIff(f);
  }

  /** The row maker the scan uses, with the clock read once for the scan. */
  function Creator(now: Timestamp): (create: string -> Photo)
  {
    f => NewPhoto(f, now)
  }

  /** `scan_photos_folder` on a listing of regular-file names: the add loop,
      the remove loop over the rows that existed before the scan, and the
      line printed when either count is non-zero. */
  method ScanPhotosFolder(store: Store, listing: set<string>, now: Timestamp)
    returns (synced: Store, added: nat, removed: nat, message: Option<string>)
    ensures synced.Keys == DiskFiles(listing)
    ensures forall f :: f in store && f in synced ==> synced[f] == store[f]
    ensures forall f :: f in synced && f !in store ==> synced[f] == NewPhoto(f, now)
    ensures added == |DiskFiles(listing) - store.Keys|
    ensures removed == |store.Keys - DiskFiles(listing)|
    ensures message == SyncMessage(added, removed)
    ensures synced == Sync.Reconciled(store, DiskFiles(listing), Creator(now))
  {
    var diskFiles := DiskFiles(listing);
    synced, added, removed := Sync.Reconcile(store, diskFiles, Creator(now));
    Sync.ReconciledShape(store, diskFiles, Creator(now));
    message := SyncMessage(added, removed);
  }

  /** The line the scan prints when it changed something. */
  function SyncMessage(added: nat, removed: nat): (m: Option<string>)
    ensures m.None? <==> added == 0 && removed == 0
  {
    if added != 0 || removed != 0 then
      Some("Photo sync: +" + Numerals.Decimal(added) + " added, -" + Numerals.Decimal(removed) + " removed")
    else None
  }

  /** The printed line determines both counts: two scans that print the
      same line added and removed the same numbers of rows. */
  lemma SyncMessageInjective(added: nat, removed: nat, added': nat, removed': nat)
    requires SyncMessage(added, removed) == SyncMessage(added', removed')
    ensures added == added' && removed == removed'
  {
    if SyncMessage(added, removed).Some? {
      var head, middle, tail := "Photo sync: +", " added, -", " removed";
      assert middle[0] == ' ' && tail[0] == ' ';
      FieldsDetermined(head, middle, tail,
        Numerals.Decimal(added), Numerals.Decimal(removed),
        Numerals.Decimal(added'), Numerals.Decimal(removed'));
      Numerals.DecimalInjective(added, added');
      Numerals.DecimalInjective(removed, removed');
    }
  }

  /** Two digit fields, each closed by text that starts with a non-digit,
      are read back unambiguously from a line. */
  lemma FieldsDetermined(head: string, middle: string, tail: string,
                         a: string, r: string, a': string, r': string)
    requires Numerals.AllDigits(a) && Numerals.AllDigits(r)
    requires Numerals.AllDigits(a') && Numerals.AllDigits(r')
    requires |middle| > 0 && !Numerals.IsDigit(middle[0])
    requires |tail| > 0 && !Numerals.IsDigit(tail[0])
    requires head + a + middle + r + tail == head + a' + middle + r' + tail
    ensures a == a' && r == r'
  {
    var line := head + a + middle + r + tail;
    assert line == head + (a + (middle + (r + tail)));
    assert line == head + (a' + (middle + (r' + tail)));
    assert line[|head|..] == a + (middle + (r + tail));
    assert line[|head|..] == a' + (middle + (r' + tail));
    Numerals.DigitsThenNonDigit(a, middle + (r + tail), a', middle + (r' + tail));
    assert (middle + (r + tail))[|middle|..] == r + tail;
    assert (middle + (r' + tail))[|middle|..] == r' + tail;
    Numerals.DigitsThenNonDigit(r, tail, r', tail);
  }

  /** A second scan of an unchanged directory adds nothing, removes
      nothing, keeps every row as the first scan left it, and prints
      nothing, whatever the clock says. */
  lemma RescanIsIdempotent(store: Store, listing: set<string>, first: Timestamp, second: Timestamp)
    ensures var once := Sync.Reconciled(store, DiskFiles(listing), Creator(first));
      && Sync.Reconciled(once, DiskFiles(listing), Creator(second)) == once
      && |DiskFiles(listing) - once.Keys| == 0
      && |once.Keys - DiskFiles(listing)| == 0
      && SyncMessage(|DiskFiles(listing) - once.Keys|, |once.Keys - DiskFiles(listing)|) == None
  {
    Sync.ReconcileIdempotent(store, DiskFiles(listing), Creator(first), Creator(second));
  }
}
