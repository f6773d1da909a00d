/**
 * The scalar values a posting's attributes and its dictionary form can
 * hold: Python's `None`, booleans, integers, floats and strings, with the
 * two operations the posting classes apply to them (`<` and `*`).
 * Floats are exact reals: no rounding, infinities or NaN.
 */
module JsonValue {
  import opened Wrappers
  import StringOrder

  datatype Value = Null | Bool(b: bool) | Int(i: int) | Num(r: real) | Str(s: string)

  type Dict = map<string, Value>

  /** Booleans, integers and floats: the values Python compares and multiplies as numbers. */
  predicate Numeric(v: Value) {
    v.Bool? || v.Int? || v.Num?
  }

  /** Booleans and integers: the values a string can be repeated by. */
  predicate Integral(v: Value) {
    v.Bool? || v.Int?
  }

  function IntVal(v: Value): int
    requires Integral(v)
  {
    match v
    case Bool(b) => if b then 1 else 0
    case Int(i) => i
  }

  function NumVal(v: Value): real
    requires Numeric(v)
  {
    match v
    case Bool(b) => if b then 1.0 else 0.0
    case Int(i) => i as real
    case Num(r) => r
  }

  /**
   * Python's `a < b`: numbers compare by value, strings by code points, and
   * any other pairing raises `TypeError` (`None`).
   */
  function Lt(a: Value, b: Value): (r: Option<bool>)
    ensures r.Some? <==> (Numeric(a) && Numeric(b)) || (a.Str? && b.Str?)
    ensures Numeric(a) && Numeric(b) ==> r == Some(NumVal(a) < NumVal(b))
    ensures a.Str? && b.Str? ==> r == Some(StringOrder.Less(a.s, b.s))
  {
    if Numeric(a) && Numeric(b) then Some(NumVal(a) < NumVal(b))
    else if a.Str? && b.Str? then Some(StringOrder.Less(a.s, b.s))
    else None
  }

  /** `s * n`: `n` copies of `s`, none for `n <= 0`. */
  function Repeat(s: string, n: int): (r: string)
    ensures |r| == if n <= 0 then 0 else n * |s|
    ensures forall i :: 0 <= i < |r| ==> r[i] in s
    decreases n
  {
    if n <= 0 then "" else s + Repeat(s, n - 1)
  }

  /**
   * Python's `a * b`: integers (and booleans) give an integer, a float on
   * either side gives a float, a string times an integer repeats it, and
   * anything else raises `TypeError` (`None`).
   */
  function Mul(a: Value, b: Value): (r: Option<Value>)
    ensures r.Some? <==> (Numeric(a) && Numeric(b)) || (a.Str? && Integral(b)) || (Integral(a) && b.Str?)
    ensures Integral(a) && Integral(b) ==> r == Some(Int(IntVal(a) * IntVal(b)))
    ensures Numeric(a) && Numeric(b) && (a.Num? || b.Num?) ==> r == Some(Num(NumVal(a) * NumVal(b)))
    ensures a.Str? && Integral(b) ==> r.Some? && r.value.Str? && |r.value.s| == if IntVal(b) <= 0 then 0 else IntVal(b) * |a.s|
  {
    if Integral(a) && Integral(b) then Some(Int(IntVal(a) * IntVal(b)))
    else if Numeric(a) && Numeric(b) then Some(Num(NumVal(a) * NumVal(b)))
    else if a.Str? && Integral(b) then Some(Str(Repeat(a.s, IntVal(b))))
    else if Integral(a) && b.Str? then Some(Str(Repeat(b.s, IntVal(a))))
    else None
  }

  /** Multiplying by the integer 0 gives the zero of the value's own kind, and fails only on `None`. */
  lemma TimesZero(v: Value)
    ensures Mul(v, Int(0)).Some? <==> !v.Null?
    ensures Integral(v) ==> Mul(v, Int(0)) == Some(Int(0))
    ensures v.Num? ==> Mul(v, Int(0)) == Some(Num(0.0))
    ensures v.Str? ==> Mul(v, Int(0)) == Some(Str(""))
  {
  }
}

/**
 * The posting of the binary indexer: a document id and a term frequency,
 * ordered by document id, stored as a two-key dictionary. Python does not
 * check the attributes' types, so they are arbitrary values here; the
 * indexer itself builds postings from an integer id and a float frequency.
 */
module Posting {
  import opened Wrappers
  import opened JsonValue
  import StringOrder

  datatype Posting = Posting(docId: Value, tf: Value)

  /** `__init__`: both fields are kept as given. */
  function Make(docId: Value, tf: Value): (p: Posting)
    ensures p.docId == docId && p.tf == tf
  {
    Posting(docId, tf)
  }

  /** `__lt__`: by document id alone; `None` where the ids cannot be compared. */
  function Less(p: Posting, q: Posting): Option<bool> {
    Lt(p.docId, q.docId)
  }

  /**
   * Where `<` is defined it is a strict order on postings that looks only at
   * the document ids: irreflexive, transitive and asymmetric.
   */
  lemma LessIsStrictOrder(p: Posting, q: Posting, s: Posting)
    ensures Less(p, p) != Some(true)
    ensures Less(p, q) == Some(true) && Less(q, s) == Some(true) ==> Less(p, s) == Some(true)
    ensures Less(p, q) == Some(true) ==> Less(q, p) == Some(false)
    ensures Less(p, q) == Less(p.(tf := s.tf), q)
  {
    if p.docId.Str? {
      StringOrder.LessIrreflexive(p.docId.s);
    }
    if Less(p, q) == Some(true) && Less(q, s) == Some(true) && p.docId.Str? {
      StringOrder.LessTransitive(p.docId.s, q.docId.s, s.docId.s);
    }
    if Less(p, q) == Some(true) && p.docId.Str? {
      StringOrder.LessAsymmetric(p.docId.s, q.docId.s);
    }
  }

  /** `to_dict`: exactly the keys `doc_id` and `tf`. */
  function ToDict(p: Posting): (d: Dict)
    ensures d.Keys == {"doc_id", "tf"}
    ensures d["doc_id"] == p.docId && d["tf"] == p.tf
  {
    map["doc_id" := p.docId, "tf" := p.tf]
  }

  /** `from_dict`: `None` (a `KeyError`) exactly when a key is missing; the values are taken as they are. */
  function FromDict(d: Dict): (r: Option<Posting>)
    ensures r.Some? <==> "doc_id" in d && "tf" in d
    ensures r.Some? ==> r.value.docId == d["doc_id"] && r.value.tf == d["tf"]
  {
    if "doc_id" in d && "tf" in d then Some(Make(d["doc_id"], d["tf"])) else None
  }

  /** Reading back a posting's dictionary gives the posting. */
  lemma FromToDict(p: Posting)
    ensures FromDict(ToDict(p)) == Some(p)
  {
  }

  /** Any dictionary with exactly the two keys survives a trip through a posting. */
  lemma ToFromDict(d: Dict)
    requires d.Keys == {"doc_id", "tf"}
    ensures FromDict(d).Some? && ToDict(FromDict(d).value) == d
  {
    var e := ToDict(FromDict(d).value);
    assert e.Keys == d.Keys;
  }
}

/**
 * The earlier posting of the JSON indexer: a document name, a term
 * frequency and, when an idf is given, the idf and the tf-idf product.
 * Its dictionary form keeps only the name and the frequency. The root
 * indexer passes the integer URL id as the document name.
 */
module LegacyPosting {
  import opened Wrappers
  import opened JsonValue

  /** `idf` and `tfIdf` are absent attributes when `None`. */
  datatype Posting = Posting(docName: Value, tf: Value, idf: Option<Value>, tfIdf: Option<Value>)

  /**
   * `__init__`: the idf attributes exist only when an idf is passed, and
   * then `tf * idf` must be defined (else a `TypeError`, `None`).
   */
  function Make(docName: Value, tf: Value, idf: Option<Value>): (r: Option<Posting>)
    ensures r.Some? <==> idf.None? || Mul(tf, idf.value).Some?
    ensures r.Some? ==> r.value.docName == docName && r.value.tf == tf && r.value.idf == idf
    ensures r.Some? ==> (r.value.tfIdf.Some? <==> idf.Some?)
    ensures r.Some? && idf.Some? ==> r.value.tfIdf == Mul(tf, idf.value)
  {
    match idf
    case None => Some(Posting(docName, tf, None, None))
    case Some(x) =>
      match Mul(tf, x)
      case None => None
      case Some(product) => Some(Posting(docName, tf, Some(x), Some(product)))
  }

  /**
   * `__str__`: formats `tf_idf` with `:.2f`, so it fails for a posting built
   * without an idf and for a non-numeric tf-idf.
   */
  function Describe(p: Posting): (r: Option<(Value, real)>)
    ensures r.Some? <==> p.tfIdf.Some? && Numeric(p.tfIdf.value)
    ensures r.Some? ==> r.value == (p.docName, NumVal(p.tfIdf.value))
  {
    match p.tfIdf
    case None => None
    case Some(s) => if Numeric(s) then Some((p.docName, NumVal(s))) else None
  }

  /** `to_dict`: the name and the frequency; idf and tf-idf are dropped. */
  function ToDict(p: Posting): (d: Dict)
    ensures d.Keys == {"doc_name", "tf"}
    ensures d["doc_name"] == p.docName && d["tf"] == p.tf
  {
    map["doc_name" := p.docName, "tf" := p.tf]
  }

  /**
   * `from_dict`: builds a posting with the integer idf 0, so it fails when a
   * key is missing or when `tf * 0` is undefined, which among these values
   * is only for a `None` frequency.
   */
  function FromDict(d: Dict): (r: Option<Posting>)
    ensures r.Some? <==> "doc_name" in d && "tf" in d && !d["tf"].Null?
    ensures r.Some? ==> r.value.docName == d["doc_name"] && r.value.tf == d["tf"]
    ensures r.Some? ==> r.value.idf == Some(Int(0)) && r.value.tfIdf == Mul(d["tf"], Int(0))
  {
    if "doc_name" in d && "tf" in d then
      TimesZero(d["tf"]);
      Make(d["doc_name"], d["tf"], Some(Int(0)))
    else None
  }

  /**
   * Reading back a posting's dictionary keeps the name and the frequency
   * and replaces whatever idf it had by 0.
   */
  lemma FromToDict(p: Posting)
    requires !p.tf.Null?
    ensures FromDict(ToDict(p)) == Make(p.docName, p.tf, Some(Int(0)))
    ensures FromDict(ToDict(p)).Some?
  {
    TimesZero(p.tf);
  }

  /**
   * A posting the root indexer builds (an integer id, a float frequency, no
   * idf) cannot be printed; after a dictionary trip it prints with score 0.
   */
  lemma DescribeNeedsIdf(id: int, tf: real)
    ensures Make(Int(id), Num(tf), None).Some?
    ensures Describe(Make(Int(id), Num(tf), None).value).None?
    ensures Describe(FromDict(ToDict(Make(Int(id), Num(tf), None).value)).value) == Some((Int(id), 0.0))
  {
    TimesZero(Num(tf));
  }
}
