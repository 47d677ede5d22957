/** The memoised metrics derivation: an inputs memo that names a layer, a layer
    store that validates what it returns, and the derivation both stand in for.

    Digests are taken to be injective, so a digest is represented by what it
    digests: the memo is keyed by the inputs themselves, a payload digest is the
    payload, and an output digest the canonical output. */
module MetricsCache {
  import opened Options

  /** The parts of the program the cache is built around, for inputs `I`, canonical
      inputs `K`, metric facts `F` and canonical outputs `O`. */
  datatype Projection<!I, !K, !F, !O> = Projection(
    canonical: I -> Option<K>,
    derive: I -> F,
    output: (I, F) -> Option<O>)

  /** Canonical output is a function of canonical inputs. */
  ghost predicate Canonical<I(!new), K(!new), F, O>(p: Projection<I, K, F, O>) {
    forall i, j :: p.canonical(i).Some? && p.canonical(i) == p.canonical(j) ==>
      p.output(i, p.derive(i)) == p.output(j, p.derive(j))
  }

  datatype Memo<I, K, F, O> =
    | MemoGarbage
    | Memo(currentSchema: bool, inputs: I, layerKey: K, outputDigest: O, payloadDigest: F)

  datatype Layer<F, O> =
    | LayerGarbage(readable: bool)
    | Layer(currentSchema: bool, payload: F, outputDigest: O, payloadDigest: F)

  datatype Store<I, K, F, O> = Store(enabled: bool, memos: map<I, Memo<I, K, F, O>>, layers: map<K, Layer<F, O>>)

  datatype ReadStatus = Hit | Miss | InvalidEvicted | Bypassed

  datatype Stats = Stats(hits: nat, misses: nat, invalid: nat, bypasses: nat, recomputes: nat)

  /** What one run leaves: nothing when metrics were not requested, an error, or
      the facts of the database with the digest and the counters reported. */
  datatype Result<F, O> = NotRequested | ProjectionError | Derived(facts: F, digest: O, stats: Stats)

  // ----- reading

  /** A memo counts only if it parses, has the current schema and repeats the inputs. */
  function ReadMemo<I(==), K, F, O>(store: Store<I, K, F, O>, i: I): Option<Memo<I, K, F, O>> {
    if store.enabled && i in store.memos && store.memos[i].Memo? && store.memos[i].currentSchema
      && store.memos[i].inputs == i
    then Some(store.memos[i]) else None
  }

  function ReadLayer<I, K(==), F(==), O>(store: Store<I, K, F, O>, key: K, valid: Layer<F, O> -> bool): ReadStatus {
    if !store.enabled then Bypassed
    else if key !in store.layers then Miss
    else
      match store.layers[key]
      case LayerGarbage(readable) => if readable then InvalidEvicted else Miss
      case Layer(_, payload, _, payloadDigest) =>
        if payloadDigest == payload && valid(store.layers[key]) then Hit else InvalidEvicted
  }

  /** Any read of an existing entry that is not a hit evicts it. */
  function AfterRead<I, K, F, O>(store: Store<I, K, F, O>, key: K, status: ReadStatus): Store<I, K, F, O> {
    if status == InvalidEvicted || status == Miss then store.(layers := store.layers - {key}) else store
  }

  function MemoValidator<I, K, F(==), O(==)>(memo: Memo<I, K, F, O>): Layer<F, O> -> bool {
    (l: Layer<F, O>) => memo.Memo? && l.Layer? && l.currentSchema && l.outputDigest == memo.outputDigest
      && l.payloadDigest == memo.payloadDigest
  }

  function ContextValidator<I, K, F, O(==)>(p: Projection<I, K, F, O>, i: I): Layer<F, O> -> bool {
    (l: Layer<F, O>) => l.Layer? && l.currentSchema && p.output(i, l.payload) == Some(l.outputDigest)
  }

  // ----- one run

  /** The derivation without any cache. */
  function Uncached<I, K, F, O>(p: Projection<I, K, F, O>, i: I): Option<O> {
    if p.canonical(i).None? then None else p.output(i, p.derive(i))
  }

  const FRESH_HIT := Stats(1, 0, 0, 0, 0)

  /** The counters of a recomputation after such a read. */
  function Recomputed(read: ReadStatus): Stats {
    Stats(0, if read == Miss then 1 else 0, if read == InvalidEvicted then 1 else 0,
          if read == Bypassed then 1 else 0, 1)
  }

  /** What the full path does once a layer read answered. The write flags say
      whether the layer and the memo could be stored. */
  function FullPath<I(==), K(==), F, O>(p: Projection<I, K, F, O>, store: Store<I, K, F, O>, i: I, key: K,
                                        read: ReadStatus, layerWritten: bool, memoWritten: bool)
    : (Store<I, K, F, O>, Result<F, O>)
  {
    if read == Hit && key in store.layers && store.layers[key].Layer? then
      var l := store.layers[key];
      (if memoWritten
       then store.(memos := store.memos[i := Memo(true, i, key, l.outputDigest, l.payloadDigest)]) else store,
       Derived(l.payload, l.outputDigest, FRESH_HIT))
    else
      var facts := p.derive(i);
      match p.output(i, facts)
      case None => (store, ProjectionError)
      case Some(digest) =>
        var stats := Recomputed(read);
        var stored := if layerWritten && store.enabled
            then store.(layers := store.layers[key := Layer(true, facts, digest, facts)]) else store;
        (if layerWritten && store.enabled && memoWritten
            then stored.(memos := stored.memos[i := Memo(true, i, key, digest, facts)]) else stored,
         Derived(facts, digest, stats))
  }

  function Run<I(==), K(==), F(==), O(==)>(p: Projection<I, K, F, O>, store: Store<I, K, F, O>, requested: bool, i: I,
                                           layerWritten: bool, memoWritten: bool)
    : (Store<I, K, F, O>, Result<F, O>)
  {
    if !requested then (store, NotRequested)
    else
      var memo := ReadMemo(store, i);
      var memoRead := if memo.Some? && memo.value.Memo?
          then ReadLayer(store, memo.value.layerKey, MemoValidator(memo.value)) else Bypassed;
      if memoRead == Hit && memo.value.layerKey in store.layers && store.layers[memo.value.layerKey].Layer? then
        (store, Derived(store.layers[memo.value.layerKey].payload, memo.value.outputDigest, FRESH_HIT))
      else
        var store1 := if memo.Some? && memo.value.Memo? then AfterRead(store, memo.value.layerKey, memoRead) else store;
        match p.canonical(i)
        case None => (store1, ProjectionError)
        case Some(key) =>
          var known := memo.Some? && memo.value.Memo? && memo.value.layerKey == key && memoRead == InvalidEvicted;
          var read := if known then InvalidEvicted else ReadLayer(store1, key, ContextValidator(p, i));
          var store2 := if known then store1 else AfterRead(store1, key, read);
          FullPath(p, store2, i, key, read, layerWritten, memoWritten)
  }

  // ----- what the stores must keep

  /** Whenever the full path would accept this layer, its digest is the true one. */
  ghost predicate Harmless<I(!new), K, F, O>(p: Projection<I, K, F, O>, key: K, l: Layer<F, O>) {
    l.Layer? && l.currentSchema && l.payloadDigest == l.payload ==>
      forall i :: p.canonical(i) == Some(key) && p.output(i, l.payload) == Some(l.outputDigest) ==>
          p.output(i, p.derive(i)) == Some(l.outputDigest)
  }

  ghost predicate LayersOk<I(!new), K(!new), F, O>(p: Projection<I, K, F, O>, store: Store<I, K, F, O>) {
    forall key :: key in store.layers ==> Harmless(p, key, store.layers[key])
  }

  /** A memo that will be believed names the layer of its inputs and the payload
      and output of a correct derivation from them. */
  ghost predicate Truthful<I, K, F, O>(p: Projection<I, K, F, O>, i: I, m: Memo<I, K, F, O>) {
    m.Memo? && m.currentSchema && m.inputs == i ==>
      p.canonical(i) == Some(m.layerKey) && p.output(i, m.payloadDigest) == Some(m.outputDigest)
        && p.output(i, p.derive(i)) == Some(m.outputDigest)
  }

  ghost predicate MemosOk<I(!new), K, F, O>(p: Projection<I, K, F, O>, store: Store<I, K, F, O>) {
    forall i :: i in store.memos ==> Truthful(p, i, store.memos[i])
  }

  /** The answer of a requested run agrees with the derivation without a cache, and
      counts a recomputation exactly when it counts no hit. */
  ghost predicate Agrees<I, K, F, O>(p: Projection<I, K, F, O>, i: I, r: Result<F, O>) {
    match r
    case NotRequested => false
    case ProjectionError => Uncached(p, i).None?
    case Derived(facts, digest, stats) =>
      Uncached(p, i) == Some(digest) && p.output(i, facts) == Some(digest)
      && stats.hits + stats.recomputes == 1 && stats.hits + stats.misses + stats.invalid + stats.bypasses == 1
  }

  lemma FullPathAgrees<I(!new), K(!new), F, O>(p: Projection<I, K, F, O>, store: Store<I, K, F, O>, i: I, key: K,
                                               read: ReadStatus, layerWritten: bool, memoWritten: bool)
    requires Canonical(p) && LayersOk(p, store) && MemosOk(p, store) && p.canonical(i) == Some(key)
    requires read == Hit ==> ReadLayer(store, key, ContextValidator(p, i)) == Hit
    ensures var (store', r) := FullPath(p, store, i, key, read, layerWritten, memoWritten);
            Agrees(p, i, r) && LayersOk(p, store') && MemosOk(p, store')
  {
  }

  /** A run on stores that are in order answers like the derivation without a
      cache, and leaves the stores in order. */
  lemma RunAgrees<I(!new), K(!new), F, O>(p: Projection<I, K, F, O>, store: Store<I, K, F, O>, i: I, layerWritten: bool,
                                          memoWritten: bool)
    requires Canonical(p) && LayersOk(p, store) && MemosOk(p, store)
    ensures var (store', r) := Run(p, store, true, i, layerWritten, memoWritten);
            Agrees(p, i, r) && LayersOk(p, store') && MemosOk(p, store')
  {
    var memo := ReadMemo(store, i);
    var memoRead := if memo.Some? && memo.value.Memo?
        then ReadLayer(store, memo.value.layerKey, MemoValidator(memo.value)) else Bypassed;
    if memo.Some? {
      assert Truthful(p, i, store.memos[i]);
    }
    if memoRead == Hit {
    } else {
      var store1 := if memo.Some? && memo.value.Memo? then AfterRead(store, memo.value.layerKey, memoRead) else store;
      if p.canonical(i).Some? {
        var key := p.canonical(i).value;
        var known := memo.Some? && memo.value.Memo? && memo.value.layerKey == key && memoRead == InvalidEvicted;
        var read := if known then InvalidEvicted else ReadLayer(store1, key, ContextValidator(p, i));
        var store2 := if known then store1 else AfterRead(store1, key, read);
        FullPathAgrees(p, store2, i, key, read, layerWritten, memoWritten);
      }
    }
  }

  /** While the memos are truthful, a run that the memo answers is correct whatever is
      in the layers: the memo fixes the payload by its digest. */
  lemma MemoAnswerIsCorrect<I(!new), K(!new), F, O>(p: Projection<I, K, F, O>, store: Store<I, K, F, O>, i: I,
                                                    layerWritten: bool, memoWritten: bool)
    requires MemosOk(p, store)
    requires var memo := ReadMemo(store, i);
             memo.Some? && ReadLayer(store, memo.value.layerKey, MemoValidator(memo.value)) == Hit
    ensures Agrees(p, i, Run(p, store, true, i, layerWritten, memoWritten).1)
    ensures Run(p, store, true, i, layerWritten, memoWritten).0 == store
  {
  }

  // ----- histories

  /** Runs, and what may befall the stores between them: entries lost, and entries
      damaged in a way a read can notice. */
  datatype Event<I, K, F, O> =
    | Requested(i: I, layerWritten: bool, memoWritten: bool)
    | LoseMemo(i: I)
    | LoseLayer(key: K)
    | DamageMemo(i: I, memo: Memo<I, K, F, O>)
    | DamageLayer(key: K, layer: Layer<F, O>)
    | Switch(enabled: bool)

  ghost predicate Noticeable<I, K, F, O>(e: Event<I, K, F, O>) {
    match e
    case DamageMemo(i, m) => !(m.Memo? && m.currentSchema && m.inputs == i)
    case DamageLayer(_, l) => !(l.Layer? && l.currentSchema && l.payloadDigest == l.payload)
    case _ => true
  }

  function Apply<I(==), K(==), F(==), O(==)>(p: Projection<I, K, F, O>, store: Store<I, K, F, O>, e: Event<I, K, F,
                                             O>): Store<I, K, F, O> {
    match e
    case Requested(i, layerWritten, memoWritten) => Run(p, store, true, i, layerWritten, memoWritten).0
    case LoseMemo(i) => store.(memos := store.memos - {i})
    case LoseLayer(key) => store.(layers := store.layers - {key})
    case DamageMemo(i, memo) => store.(memos := store.memos[i := memo])
    case DamageLayer(key, layer) => store.(layers := store.layers[key := layer])
    case Switch(enabled) => store.(enabled := enabled)
  }

  function After<I(==), K(==), F(==), O(==)>(p: Projection<I, K, F, O>, events: seq<Event<I, K, F,
                                             O>>): Store<I, K, F, O> {
    if events == [] then Store(true, map[], map[])
    else Apply(p, After(p, events[..|events| - 1]), events[|events| - 1])
  }

  lemma {:induction false} HistoryKeepsStores<I(!new), K(!new), F, O>(p: Projection<I, K, F, O>, events: seq<Event<I, K,
                                                                      F, O>>)
    requires Canonical(p) && forall k :: 0 <= k < |events| ==> Noticeable(events[k])
    ensures LayersOk(p, After(p, events)) && MemosOk(p, After(p, events))
  {
    if events != [] {
      var store, e := After(p, events[..|events| - 1]), events[|events| - 1];
      HistoryKeepsStores(p, events[..|events| - 1]);
      assert Noticeable(e);
      if e.Requested? {
        RunAgrees(p, store, e.i, e.layerWritten, e.memoWritten);
      }
    }
  }

  /** After every history from empty stores a requested run agrees with the
      derivation without a cache. */
  lemma EveryRunAgrees<I(!new), K(!new), F, O>(p: Projection<I, K, F, O>, events: seq<Event<I, K, F, O>>, i: I,
                                               layerWritten: bool, memoWritten: bool)
    requires Canonical(p) && forall k :: 0 <= k < |events| ==> Noticeable(events[k])
    ensures Agrees(p, i, Run(p, After(p, events), true, i, layerWritten, memoWritten).1)
  {
    HistoryKeepsStores(p, events);
    RunAgrees(p, After(p, events), i, layerWritten, memoWritten);
  }

  /** After every noticeable history, and then any damage whatever to the layers, forged
      ones included, a run that the memo answers is correct. */
  lemma MemoSurvivesForgedLayers<I(!new), K(!new), F, O>(p: Projection<I, K, F, O>, events: seq<Event<I, K, F, O>>,
                                                        layers: map<K, Layer<F, O>>, i: I,
                                                        layerWritten: bool, memoWritten: bool)
    requires Canonical(p) && forall k :: 0 <= k < |events| ==> Noticeable(events[k])
    requires var store := After(p, events).(layers := layers);
             var memo := ReadMemo(store, i);
             memo.Some? && ReadLayer(store, memo.value.layerKey, MemoValidator(memo.value)) == Hit
    ensures Agrees(p, i, Run(p, After(p, events).(layers := layers), true, i, layerWritten, memoWritten).1)
  {
    hide Run, Agrees, Canonical, LayersOk;
    HistoryKeepsStores(p, events);
    MemoAnswerIsCorrect(p, After(p, events).(layers := layers), i, layerWritten, memoWritten);
  }

  /** The memo of these inputs names a layer that answers with these facts. */
  ghost predicate MemoAnswers<I, K, F, O>(store: Store<I, K, F, O>, i: I, facts: F, digest: O) {
    var memo := ReadMemo(store, i);
    memo.Some? && memo.value.Memo? && memo.value.outputDigest == digest
    && ReadLayer(store, memo.value.layerKey, MemoValidator(memo.value)) == Hit
    && memo.value.layerKey in store.layers && store.layers[memo.value.layerKey].Layer?
    && store.layers[memo.value.layerKey].payload == facts
  }

  lemma MemoAnswersRun<I(!new), K(!new), F, O>(p: Projection<I, K, F, O>, store: Store<I, K, F, O>, i: I, facts: F,
                                               digest: O, layerWritten: bool, memoWritten: bool)
    requires MemoAnswers(store, i, facts, digest)
    ensures Run(p, store, true, i, layerWritten, memoWritten) == (store, Derived(facts, digest, FRESH_HIT))
  {
  }

  lemma RunStores<I(!new), K(!new), F, O>(p: Projection<I, K, F, O>, store: Store<I, K, F, O>, i: I)
    requires store.enabled && Uncached(p, i).Some?
    ensures var (store', r) := Run(p, store, true, i, true, true);
            r.Derived? && MemoAnswers(store', i, r.facts, r.digest)
  {
  }

  /** A run that stored both entries is answered by the memo the next time, with
      the same facts. */
  lemma RepeatedRunHits<I(!new), K(!new), F, O>(p: Projection<I, K, F, O>, store: Store<I, K, F, O>, i: I,
                                                layerWritten: bool, memoWritten: bool)
    requires store.enabled && Uncached(p, i).Some?
    ensures var (store', r) := Run(p, store, true, i, true, true);
            var (store'', r') := Run(p, store', true, i, layerWritten, memoWritten);
            r.Derived? && r' == Derived(r.facts, r.digest, FRESH_HIT) && store'' == store'
  {
    hide Run;
    RunStores(p, store, i);
    var (store', r) := Run(p, store, true, i, true, true);
    MemoAnswersRun(p, store', i, r.facts, r.digest, layerWritten, memoWritten);
  }

  // ----- exactly what a run answers and leaves, on the stores

  /** The store has a memo of these inputs in the current schema that repeats them. */
  ghost predicate Believes<I, K, F, O>(store: Store<I, K, F, O>, i: I) {
    store.enabled && i in store.memos && store.memos[i].Memo? && store.memos[i].currentSchema
    && store.memos[i].inputs == i
  }

  /** The store has a layer in the current schema whose payload has its digest. */
  ghost predicate Intact<I, K, F, O>(store: Store<I, K, F, O>, key: K) {
    store.enabled && key in store.layers && store.layers[key].Layer? && store.layers[key].currentSchema
    && store.layers[key].payloadDigest == store.layers[key].payload
  }

  /** The layer that a believed memo names is intact and the one the memo was written for. */
  ghost predicate MemoUsable<I, K, F, O>(store: Store<I, K, F, O>, i: I) {
    Believes(store, i) && Intact(store, store.memos[i].layerKey)
    && store.layers[store.memos[i].layerKey].outputDigest == store.memos[i].outputDigest
    && store.layers[store.memos[i].layerKey].payloadDigest == store.memos[i].payloadDigest
  }

  /** The layer of the canonical inputs is intact and has their output, and no believed
      memo names it too: that would have had it evicted. */
  ghost predicate CanonicalUsable<I, K, F, O>(p: Projection<I, K, F, O>, store: Store<I, K, F, O>, i: I, key: K) {
    p.canonical(i) == Some(key) && Intact(store, key)
    && p.output(i, store.layers[key].payload) == Some(store.layers[key].outputDigest)
    && !(Believes(store, i) && store.memos[i].layerKey == key)
  }

  /** Something readable is stored under the key. */
  ghost predicate Readable<I, K, F, O>(store: Store<I, K, F, O>, key: K) {
    key in store.layers && (store.layers[key].LayerGarbage? ==> store.layers[key].readable)
  }

  /** The counters of a run that derived the facts again: one recomputation, and a miss,
      an eviction or a bypass by what is stored under the canonical inputs. */
  ghost predicate CountsRecompute<I, K, F, O>(store: Store<I, K, F, O>, key: K, stats: Stats) {
    && stats.hits == 0 && stats.recomputes == 1
    && stats.bypasses == (if store.enabled then 0 else 1)
    && stats.invalid == (if store.enabled && Readable(store, key) then 1 else 0)
    && stats.misses == (if store.enabled && !Readable(store, key) then 1 else 0)
  }

  /** A run is answered by the memo's layer, else by the canonical one, with one hit and
      that layer's facts and digest; else it derives the facts, and counts that. */
  ghost predicate AnswersExactly<I, K, F, O>(p: Projection<I, K, F, O>, store: Store<I, K, F, O>, i: I,
                                             r: Result<F, O>) {
    if MemoUsable(store, i) then AnsweredBy(store, store.memos[i].layerKey, r)
    else
      match p.canonical(i)
      case None => r == ProjectionError
      case Some(key) =>
        if CanonicalUsable(p, store, i, key) then AnsweredBy(store, key, r)
        else
          match p.output(i, p.derive(i))
          case None => r == ProjectionError
          case Some(digest) =>
            r.Derived? && r.facts == p.derive(i) && r.digest == digest && CountsRecompute(store, key, r.stats)
  }

  ghost predicate AnsweredBy<I, K, F, O>(store: Store<I, K, F, O>, key: K, r: Result<F, O>) {
    key in store.layers && store.layers[key].Layer?
    && r == Derived(store.layers[key].payload, store.layers[key].outputDigest, Stats(1, 0, 0, 0, 0))
  }

  /** The layers a run leaves: a memo's answer leaves them, every other run evicts what a
      believed memo names and what is under the canonical inputs, but for a usable layer
      there, and stores what it derived if it can. */
  ghost predicate LeavesLayers<I, K, F, O>(p: Projection<I, K, F, O>, store: Store<I, K, F, O>, i: I,
                                           layerWritten: bool, layers: map<K, Layer<F, O>>) {
    if MemoUsable(store, i) || !store.enabled then layers == store.layers
    else
      var kept := if Believes(store, i) then store.layers - {store.memos[i].layerKey} else store.layers;
      match p.canonical(i)
      case None => layers == kept
      case Some(key) =>
        if CanonicalUsable(p, store, i, key) then layers == kept
        else
          match p.output(i, p.derive(i))
          case Some(digest) =>
            layers == if layerWritten then kept[key := Layer(true, p.derive(i), digest, p.derive(i))] else kept - {key}
          case None => layers == kept - {key}
  }

  /** The memos a run leaves: one is written after a canonical layer was used or a new one
      was stored. */
  ghost predicate LeavesMemos<I, K, F, O>(p: Projection<I, K, F, O>, store: Store<I, K, F, O>, i: I,
                                          layerWritten: bool, memoWritten: bool, memos: map<I, Memo<I, K, F, O>>) {
    if MemoUsable(store, i) || !store.enabled || !memoWritten || p.canonical(i).None? then memos == store.memos
    else
      var key := p.canonical(i).value;
      if CanonicalUsable(p, store, i, key) then
        memos == store.memos[i := Memo(true, i, key, store.layers[key].outputDigest, store.layers[key].payloadDigest)]
      else
        match p.output(i, p.derive(i))
        case Some(digest) =>
          memos == if layerWritten then store.memos[i := Memo(true, i, key, digest, p.derive(i))] else store.memos
        case None => memos == store.memos
  }

  lemma MemoReadMeaning<I, K, F, O>(store: Store<I, K, F, O>, i: I)
    ensures ReadMemo(store, i) == if Believes(store, i) then Some(store.memos[i]) else None
    ensures Believes(store, i) ==>
              (ReadLayer(store, store.memos[i].layerKey, MemoValidator(store.memos[i])) == Hit <==>
                 MemoUsable(store, i))
    ensures Believes(store, i) ==>
              (ReadLayer(store, store.memos[i].layerKey, MemoValidator(store.memos[i])) == InvalidEvicted <==>
                 !MemoUsable(store, i) && Readable(store, store.memos[i].layerKey))
  {
  }

  /** The read that decides a run in full: what it finds, and what is left of the layers. */
  lemma FullRead<I, K, F, O>(p: Projection<I, K, F, O>, store: Store<I, K, F, O>, i: I, key: K, layerWritten: bool,
                             memoWritten: bool)
    returns (read: ReadStatus, left: Store<I, K, F, O>)
    requires !MemoUsable(store, i) && p.canonical(i) == Some(key)
    ensures Run(p, store, true, i, layerWritten, memoWritten)
            == FullPath(p, left, i, key, read, layerWritten, memoWritten)
    ensures read == Hit <==> CanonicalUsable(p, store, i, key)
    ensures read == Bypassed <==> !store.enabled
    ensures read == InvalidEvicted <==>
            store.enabled && Readable(store, key) && !CanonicalUsable(p, store, i, key)
    ensures left.enabled == store.enabled && left.memos == store.memos
    ensures read == Hit ==> key in left.layers && left.layers[key] == store.layers[key]
    ensures var kept := if Believes(store, i) then store.layers - {store.memos[i].layerKey} else store.layers;
            left.layers == if !store.enabled then store.layers else if read == Hit then kept else kept - {key}
  {
    MemoReadMeaning(store, i);
    hide FullPath;
    var memo := ReadMemo(store, i);
    var memoRead := if memo.Some?
        then ReadLayer(store, memo.value.layerKey, MemoValidator(memo.value)) else Bypassed;
    var store1 := if memo.Some? then AfterRead(store, memo.value.layerKey, memoRead) else store;
    var known := memo.Some? && memo.value.layerKey == key && memoRead == InvalidEvicted;
    read := if known then InvalidEvicted else ReadLayer(store1, key, ContextValidator(p, i));
    left := if known then store1 else AfterRead(store1, key, read);
  }

  /** A requested run answers exactly so, whatever is in the stores. */
  lemma RunAnswersExactly<I, K, F, O>(p: Projection<I, K, F, O>, store: Store<I, K, F, O>, i: I, layerWritten: bool,
                                      memoWritten: bool)
    ensures AnswersExactly(p, store, i, Run(p, store, true, i, layerWritten, memoWritten).1)
  {
    if MemoUsable(store, i) || p.canonical(i).None? {
      MemoReadMeaning(store, i);
    } else {
      var read, left := FullRead(p, store, i, p.canonical(i).value, layerWritten, memoWritten);
      hide Run, MemoUsable;
    }
  }

  /** And it leaves exactly that. */
  lemma RunLeavesExactly<I, K, F, O>(p: Projection<I, K, F, O>, store: Store<I, K, F, O>, i: I, layerWritten: bool,
                                     memoWritten: bool)
    ensures var after := Run(p, store, true, i, layerWritten, memoWritten).0;
            && after.enabled == store.enabled
            && LeavesLayers(p, store, i, layerWritten, after.layers)
            && LeavesMemos(p, store, i, layerWritten, memoWritten, after.memos)
  {
    if MemoUsable(store, i) || p.canonical(i).None? {
      MemoReadMeaning(store, i);
    } else {
      var read, left := FullRead(p, store, i, p.canonical(i).value, layerWritten, memoWritten);
      hide Run, MemoUsable, CanonicalUsable, Believes, Readable;
    }
  }

  // ----- the derivation as the program performs it

  class Session<I(!new, ==), K(!new, ==), F(==), O(==)> {
    const p: Projection<I, K, F, O>
    const enabled: bool
    var memos: map<I, Memo<I, K, F, O>>
    var layers: map<K, Layer<F, O>>
    var facts: Option<F>

    constructor (p: Projection<I, K, F, O>, enabled: bool, memos: map<I, Memo<I, K, F, O>>, layers: map<K, Layer<F, O>>)
      ensures this.p == p && this.Stores() == Store(enabled, memos, layers)
    {
      this.p, this.enabled, this.memos, this.layers, this.facts := p, enabled, memos, layers, None;
    }

    function Stores(): Store<I, K, F, O>
      reads this
    {
      Store(enabled, memos, layers)
    }

    /** Reads a layer: a hit only on an intact layer that the caller accepts, and any
        other read of a stored layer evicts it. */
    method Read(key: K, valid: Layer<F, O> -> bool) returns (status: ReadStatus)
      modifies this`layers
      ensures status == ReadLayer(old(Stores()), key, valid)
      ensures Stores() == AfterRead(old(Stores()), key, status)
      ensures status == Hit <==>
                enabled && key in old(layers) && old(layers)[key].Layer?
                && old(layers)[key].payloadDigest == old(layers)[key].payload && valid(old(layers)[key])
      ensures status == Bypassed <==> !enabled
      ensures status == Hit || !enabled ==> layers == old(layers)
      ensures status != Hit && enabled ==> key !in layers && forall k :: k != key && k in old(layers) ==>
          k in layers && layers[k] == old(layers)[k]
    {
      if !enabled {
        return Bypassed;
      }
      if key !in layers {
        assert layers - {key} == layers;
        return Miss;
      }
      var layer := layers[key];
      if layer.Layer? && layer.payloadDigest == layer.payload && valid(layer) {
        return Hit;
      }
      layers := layers - {key};
      return if layer.LayerGarbage? && !layer.readable then Miss else InvalidEvicted;
    }

    /** The stores are in order and `read` is how the layer of `key` was read. */
    ghost predicate ReadyFor(i: I, key: K, read: ReadStatus)
      reads this
    {
      Canonical(p) && LayersOk(p, Stores()) && MemosOk(p, Stores()) && p.canonical(i) == Some(key)
      && (read == Hit ==> ReadLayer(Stores(), key, ContextValidator(p, i)) == Hit)
    }

    /** The path taken once a layer read answered without the memo's help. */
    method DeriveInFull(i: I, key: K, read: ReadStatus, layerWritten: bool, memoWritten: bool) returns (r: Result<F, O>)
      requires read == Hit ==> key in layers && layers[key].Layer?
      modifies this
      ensures (Stores(), r) == FullPath(p, old(Stores()), i, key, read, layerWritten, memoWritten)
      ensures r.Derived? ==> facts == Some(r.facts)
      ensures read == Hit ==> AnsweredBy(old(Stores()), key, r)
      ensures read != Hit && r.Derived? ==>
                r.facts == p.derive(i) && Some(r.digest) == p.output(i, p.derive(i))
                && r.stats == Stats(0, if read == Miss then 1 else 0, if read == InvalidEvicted then 1 else 0,
                                    if read == Bypassed then 1 else 0, 1)
      ensures old(ReadyFor(i, key, read)) ==> Agrees(p, i, r) && LayersOk(p, Stores()) && MemosOk(p, Stores())
    {
      hide Canonical, LayersOk, MemosOk, Agrees;
      if ReadyFor(i, key, read) {
        FullPathAgrees(p, Stores(), i, key, read, layerWritten, memoWritten);
      }
      if read == Hit {
        var l := layers[key];
        facts := Some(l.payload);
        if memoWritten {
          memos := memos[i := Memo(true, i, key, l.outputDigest, l.payloadDigest)];
        }
        return Derived(l.payload, l.outputDigest, FRESH_HIT);
      }
      facts := Some(p.derive(i));
      var output := p.output(i, p.derive(i));
      if output.None? {
        return ProjectionError;
      }
      if layerWritten && enabled {
        layers := layers[key := Layer(true, p.derive(i), output.value, p.derive(i))];
        if memoWritten {
          memos := memos[i := Memo(true, i, key, output.value, p.derive(i))];
        }
      }
      return Derived(p.derive(i), output.value,
                     Recomputed(read));
    }

    method DeriveRequested(requested: bool, i: I, layerWritten: bool, memoWritten: bool) returns (r: Result<F, O>)
      modifies this
      ensures (Stores(), r) == Run(p, old(Stores()), requested, i, layerWritten, memoWritten)
      ensures r.Derived? ==> facts == Some(r.facts)
      ensures requested ==> AnswersExactly(p, old(Stores()), i, r)
      ensures requested && Canonical(p) && old(LayersOk(p, Stores()) && MemosOk(p, Stores())) ==>
        Agrees(p, i, r) && LayersOk(p, Stores()) && MemosOk(p, Stores())
    {
      hide FullPath, Canonical, LayersOk, MemosOk, Agrees, AnswersExactly;
      ghost var before := Stores();
      RunAnswersExactly(p, before, i, layerWritten, memoWritten);
      if requested && Canonical(p) && LayersOk(p, before) && MemosOk(p, before) {
        RunAgrees(p, before, i, layerWritten, memoWritten);
      }
      if !requested {
        return NotRequested;
      }
      var memo := ReadMemo(Stores(), i);
      var memoRead := Bypassed;
      if memo.Some? && memo.value.Memo? {
        memoRead := Read(memo.value.layerKey, MemoValidator(memo.value));
        if memoRead == Hit {
          facts := Some(layers[memo.value.layerKey].payload);
          return Derived(layers[memo.value.layerKey].payload, memo.value.outputDigest, FRESH_HIT);
        }
      }
      if p.canonical(i).None? {
        return ProjectionError;
      }
      var key := p.canonical(i).value;
      var read := InvalidEvicted;
      if !(memo.Some? && memo.value.Memo? && memo.value.layerKey == key && memoRead == InvalidEvicted) {
        read := Read(key, ContextValidator(p, i));
      }
      r := DeriveInFull(i, key, read, layerWritten, memoWritten);
    }
  }
}
