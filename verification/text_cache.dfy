/** The text measurement cache of `LayoutContext`: at most 32 measurements,
    keyed by a 32-bit hash of the text's hash, the font id and the font
    size, kept in insertion order (an array map). A hit refreshes the
    entry's access time; a miss measures the text and stores the result
    unless it has more than 32 words, first evicting the entry accessed
    longest ago when the cache is full. Keys that collide share an entry. */
module TextCache {
  import opened Wrappers
  import opened Numbers
  import opened Layouts
  import opened TextMeasure

  /** `TEXT_CACHE_MAX_SIZE` and `TEXT_CACHE_MAX_WORD_COUNT`. */
  const MAX_SIZE: nat := 32
  const MAX_WORD_COUNT: nat := 32

  /** `String.hashCode`: `h = 31 * h + c` over the characters, in 32-bit
      arithmetic. */
  function StringHash(s: string): Int32
  {
    if |s| == 0 then 0 else Wrap32(31 * StringHash(s[..|s| - 1]) + s[|s| - 1] as int)
  }

  /** `MeasuredText.hash`: `textHash + (fontId << 8) + (fontSize << 16)`,
      every shift and sum wrapping to 32 bits. */
  function Hash(textHash: int, fontId: int, fontSize: int): Int32
  {
    Wrap32(Wrap32(textHash + Wrap32(fontId * 256)) + Wrap32(fontSize * 65536))
  }

  /** Two wraps of numbers that differ by a multiple of 2^32 are equal. */
  lemma Wrap32Congruent(x: int, y: int)
    requires (x - y) % TWO_POW_32 == 0
    ensures Wrap32(x) == Wrap32(y)
  {
    var rx: int := Wrap32(x);
    var ry: int := Wrap32(y);
    MultiplesAdd(x - y, -(x - rx));
    MultiplesAdd(x - y - (x - rx), y - ry);
    assert rx - ry == (x - y) - (x - rx) + (y - ry);
  }

  lemma MultiplesAdd(p: int, q: int)
    requires p % TWO_POW_32 == 0 && q % TWO_POW_32 == 0
    ensures (p + q) % TWO_POW_32 == 0
  {
    var a := p / TWO_POW_32;
    var b := q / TWO_POW_32;
    assert p + q == TWO_POW_32 * (a + b);
  }

  /** The key is the plain sum taken modulo 2^32. */
  lemma HashIsSumModulo(textHash: int, fontId: int, fontSize: int)
    ensures Hash(textHash, fontId, fontSize) == Wrap32(textHash + fontId * 256 + fontSize * 65536)
  {
    var a: int := Wrap32(fontId * 256);
    var b: int := Wrap32(textHash + a);
    var c: int := Wrap32(fontSize * 65536);
    var x := textHash + fontId * 256 + fontSize * 65536;
    MultiplesAdd(textHash + a - b, fontId * 256 - a);
    MultiplesAdd(textHash + a - b + (fontId * 256 - a), fontSize * 65536 - c);
    assert x - (b + c) == textHash + a - b + (fontId * 256 - a) + (fontSize * 65536 - c);
    Wrap32Congruent(x, b + c);
  }

  /** The key does not separate font ids from text hashes: font 1 with a
      text hash `h` and font 0 with the text hash `h + 256` (same size)
      share a key. */
  lemma FontIdCollidesWithTextHash(h: int, fontSize: int)
    ensures Hash(h, 1, fontSize) == Hash(h + 256, 0, fontSize)
  {
    HashIsSumModulo(h, 1, fontSize);
    HashIsSumModulo(h + 256, 0, fontSize);
  }

  /** `MeasuredText`: the key fields, the access time and the measurement. */
  datatype MeasuredText = MeasuredText(
    textHash: Int32,
    fontId: int,
    fontSize: int,
    lastAccess: int,
    measurement: Measurement)

  datatype Entry = Entry(key: Int32, value: MeasuredText)

  /** The array map, in insertion order. */
  datatype Cache = Cache(entries: seq<Entry>)

  /** At most 32 entries with pairwise distinct keys. */
  predicate Valid(c: Cache)
  {
    && |c.entries| <= MAX_SIZE
    && forall i, j :: 0 <= i < j < |c.entries| ==> c.entries[i].key != c.entries[j].key
  }

  /** Index of the first entry at or after `from` with the given key. */
  function FindFrom(entries: seq<Entry>, key: Int32, from: nat): (r: Option<nat>)
    decreases |entries| - from
    ensures r.None? ==> forall j :: from <= j < |entries| ==> entries[j].key != key
    ensures r.Some? ==> from <= r.value < |entries| && entries[r.value].key == key
  {
    if from >= |entries| then None
    else if entries[from].key == key then Some(from)
    else FindFrom(entries, key, from + 1)
  }

  /** `textCache.get(key)`, as the entry's index. */
  function Find(c: Cache, key: Int32): (r: Option<nat>)
    ensures r.None? <==> forall j :: 0 <= j < |c.entries| ==> c.entries[j].key != key
    ensures r.Some? ==> r.value < |c.entries| && c.entries[r.value].key == key
  {
    FindFrom(c.entries, key, 0)
  }

  /** The position the stable sort by `lastAccess` puts first: an entry with
      the smallest access time, the earliest one among equals. */
  function OldestIndex(entries: seq<Entry>): (r: nat)
    requires |entries| > 0
    ensures r < |entries|
    ensures forall j :: 0 <= j < |entries| ==> entries[r].value.lastAccess <= entries[j].value.lastAccess
    ensures forall j :: 0 <= j < r ==> entries[j].value.lastAccess > entries[r].value.lastAccess
  {
    if |entries| == 1 then 0
    else
      var k := OldestIndex(entries[..|entries| - 1]);
      assert forall j :: 0 <= j < |entries| - 1 ==> entries[..|entries| - 1][j] == entries[j];
      if entries[|entries| - 1].value.lastAccess < entries[k].value.lastAccess then |entries| - 1 else k
  }

  /** `popLastTextCacheEntry`: nothing happens to an empty cache; otherwise
      one entry whose access time is minimal (the earliest such) is removed
      and the others keep their order. */
  function PopOldest(c: Cache): (r: Cache)
    ensures |c.entries| == 0 ==> r == c
    ensures |c.entries| > 0 ==>
              exists k :: 0 <= k < |c.entries|
                && (forall j :: 0 <= j < |c.entries| ==> c.entries[k].value.lastAccess <= c.entries[j].value.lastAccess)
                && (forall j :: 0 <= j < k ==> c.entries[j].value.lastAccess > c.entries[k].value.lastAccess)
                && r.entries == c.entries[..k] + c.entries[k + 1..]
  {
    if |c.entries| == 0 then c
    else
      var k := OldestIndex(c.entries);
      Cache(c.entries[..k] + c.entries[k + 1..])
  }

  lemma PopOldestKeepsValid(c: Cache)
    requires Valid(c)
    ensures Valid(PopOldest(c))
    ensures |c.entries| > 0 ==> |PopOldest(c).entries| == |c.entries| - 1
    ensures forall j :: 0 <= j < |PopOldest(c).entries| ==> PopOldest(c).entries[j] in c.entries
  {
    if |c.entries| > 0 {
      var k := OldestIndex(c.entries);
      var r := c.entries[..k] + c.entries[k + 1..];
      forall i, j | 0 <= i < j < |r|
        ensures r[i].key != r[j].key
      {
        var i' := if i < k then i else i + 1;
        var j' := if j < k then j else j + 1;
        assert r[i] == c.entries[i'] && r[j] == c.entries[j'];
      }
    }
  }

  /** The font backend of every font: width and height of a text in the
      font with the given id at the given size. */
  type FontBackend = (int, string, int) -> (real, real)

  /** The key of a text configuration. */
  function KeyOf(cfg: ConfigBody): Int32
    requires cfg.Text?
  {
    Hash(StringHash(cfg.text), cfg.fontId, cfg.fontSize)
  }

  /** The font of a text configuration: its font id at its font size. */
  function FontOf(cfg: ConfigBody, fonts: FontBackend): Font
    requires cfg.Text?
  {
    (s: string) => fonts(cfg.fontId, s, cfg.fontSize)
  }

  /** The measurement of a text configuration with its font, either as the
      source computes it (`asWritten`) or as evidently intended. */
  function Fresh(time: int, cfg: ConfigBody, fonts: FontBackend, asWritten: bool): MeasuredText
    requires cfg.Text?
  {
    MeasuredText(StringHash(cfg.text), cfg.fontId, cfg.fontSize, time,
                 MeasureWith(cfg.text, FontOf(cfg, fonts), cfg.letterSpacing, asWritten))
  }

  /** A hit: the entry's access time is refreshed in place. */
  function Touch(c: Cache, i: nat, time: int): (r: Cache)
    requires i < |c.entries|
    ensures Valid(c) ==> Valid(r)
    ensures r.entries == c.entries[i := Entry(c.entries[i].key, c.entries[i].value.(lastAccess := time))]
  {
    var r := Cache(c.entries[i := Entry(c.entries[i].key, c.entries[i].value.(lastAccess := time))]);
    assert forall j :: 0 <= j < |c.entries| ==> r.entries[j].key == c.entries[j].key;
    r
  }

  /** A miss that is stored: make room if the cache is full, then append. */
  function Store(c: Cache, key: Int32, v: MeasuredText): (r: Cache)
    requires Find(c, key).None?
    ensures Valid(c) ==> Valid(r)
    ensures |c.entries| < MAX_SIZE ==> r.entries == c.entries + [Entry(key, v)]
    ensures |c.entries| >= MAX_SIZE ==> r.entries == PopOldest(c).entries + [Entry(key, v)]
  {
    var c1 := if |c.entries| + 1 > MAX_SIZE then PopOldest(c) else c;
    assert Valid(c) ==> Valid(c1) && |c1.entries| < MAX_SIZE && (forall j :: 0 <= j < |c1.entries| ==> c1.entries[j].key != key) by {
      if Valid(c) && |c.entries| + 1 > MAX_SIZE {
        PopOldestKeepsValid(c);
        forall j | 0 <= j < |c1.entries| ensures c1.entries[j].key != key {
          assert c1.entries[j] in c.entries;
        }
      }
    }
    Cache(c1.entries + [Entry(key, v)])
  }

  /** `measuredText(time, config)`: the returned measurement and the cache
      afterwards. */
  function MeasuredTextFor(c: Cache, time: int, cfg: ConfigBody, fonts: FontBackend, asWritten: bool): (r: (Cache, MeasuredText))
    requires cfg.Text?
    ensures Valid(c) ==> Valid(r.0)
    // a hit: the stored entry, with only its access time refreshed
    ensures Find(c, KeyOf(cfg)).Some? ==>
              var i := Find(c, KeyOf(cfg)).value;
              && r.1 == c.entries[i].value.(lastAccess := time)
              && r.0.entries == c.entries[i := Entry(KeyOf(cfg), r.1)]
    // a miss: a fresh measurement stamped with the time
    ensures Find(c, KeyOf(cfg)).None? ==>
              && r.1.lastAccess == time
              && r.1.textHash == StringHash(cfg.text) && r.1.fontId == cfg.fontId && r.1.fontSize == cfg.fontSize
              && r.1.measurement == MeasureWith(cfg.text, FontOf(cfg, fonts), cfg.letterSpacing, asWritten)
    ensures Find(c, KeyOf(cfg)).None? && |r.1.measurement.words| > MAX_WORD_COUNT ==> r.0 == c
    ensures Find(c, KeyOf(cfg)).None? && |r.1.measurement.words| <= MAX_WORD_COUNT && |c.entries| < MAX_SIZE ==>
              r.0.entries == c.entries + [Entry(KeyOf(cfg), r.1)]
    ensures Find(c, KeyOf(cfg)).None? && |r.1.measurement.words| <= MAX_WORD_COUNT && |c.entries| >= MAX_SIZE ==>
              r.0.entries == PopOldest(c).entries + [Entry(KeyOf(cfg), r.1)]
  {
    var key := KeyOf(cfg);
    match Find(c, key)
    case Some(i) => (Touch(c, i, time), c.entries[i].value.(lastAccess := time))
    case None =>
      var v := Fresh(time, cfg, fonts, asWritten);
      if |v.measurement.words| <= MAX_WORD_COUNT then (Store(c, key, v), v) else (c, v)
  }

  /** The cache never exceeds its bound, whatever sequence of texts is
      measured. */
  lemma {:induction false} CacheStaysBounded(c: Cache, time: int, cfgs: seq<ConfigBody>, fonts: FontBackend, asWritten: bool)
    requires Valid(c)
    requires forall k :: 0 <= k < |cfgs| ==> cfgs[k].Text?
    ensures |MeasureAll(c, time, cfgs, fonts, asWritten).entries| <= MAX_SIZE
    ensures Valid(MeasureAll(c, time, cfgs, fonts, asWritten))
    decreases |cfgs|
  {
    if |cfgs| > 0 {
      CacheStaysBounded(MeasuredTextFor(c, time, cfgs[0], fonts, asWritten).0, time, cfgs[1..], fonts, asWritten);
    }
  }

  /** Measuring a sequence of texts in order at one time, keeping only the
      cache (what `wrapText` does with every text element). */
  function MeasureAll(c: Cache, time: int, cfgs: seq<ConfigBody>, fonts: FontBackend, asWritten: bool): Cache
    requires forall k :: 0 <= k < |cfgs| ==> cfgs[k].Text?
    decreases |cfgs|
  {
    if |cfgs| == 0 then c else MeasureAll(MeasuredTextFor(c, time, cfgs[0], fonts, asWritten).0, time, cfgs[1..], fonts, asWritten)
  }

  /** Two configurations whose keys collide share one entry: once the first
      is cached, measuring the second returns the first's measurement. */
  lemma CollidingTextsShareAnEntry(c: Cache, time1: int, time2: int, cfg1: ConfigBody, cfg2: ConfigBody,
                                   fonts: FontBackend, asWritten: bool)
    requires cfg1.Text? && cfg2.Text? && KeyOf(cfg1) == KeyOf(cfg2)
    requires Find(c, KeyOf(cfg1)).None?
    requires |Fresh(time1, cfg1, fonts, asWritten).measurement.words| <= MAX_WORD_COUNT
    ensures var c1 := MeasuredTextFor(c, time1, cfg1, fonts, asWritten).0;
            MeasuredTextFor(c1, time2, cfg2, fonts, asWritten).1 == Fresh(time1, cfg1, fonts, asWritten).(lastAccess := time2)
  {
    var c1 := MeasuredTextFor(c, time1, cfg1, fonts, asWritten).0;
    var e := Entry(KeyOf(cfg1), Fresh(time1, cfg1, fonts, asWritten));
    assert c1.entries[|c1.entries| - 1] == e;
    var i := Find(c1, KeyOf(cfg2)).value;
    if |c.entries| < MAX_SIZE {
      assert forall j :: 0 <= j < |c.entries| ==> c1.entries[j] == c.entries[j];
    } else {
      var p := PopOldest(c);
      forall j | 0 <= j < |p.entries| ensures p.entries[j].key != KeyOf(cfg1) {
        assert p.entries[j] in c.entries;
      }
      assert forall j :: 0 <= j < |p.entries| ==> c1.entries[j] == p.entries[j];
    }
  }
}
