/** The batch call of the masked-image-modelling transform: a list of images
    becomes a mapping from each output key to the list of that key's values,
    one per image, in input order; a single image yields its own record.

    The per-image transform is a parameter: transform(i, x) is the record the
    i-th call of the transform returns for image x, holding the encoder image,
    the codebook image and the patch mask. Indexing by the call lets the same
    image, listed twice, receive two different records, as the random crop and
    mask of the transform make it do. */
module Collation {

  /** The three keys of a per-image record, in the order the record lists them. */
  datatype Key = Image | ImageForCodebook | ImagePatchesMask

  const Keys: seq<Key> := [Image, ImageForCodebook, ImagePatchesMask]

  /** What the per-image transform returns. */
  datatype Record<V> = Record(image: V, imageForCodebook: V, imagePatchesMask: V)

  /** The value a record holds under key k. */
  function Get<V>(r: Record<V>, k: Key): V {
    match k
    case Image => r.image
    case ImageForCodebook => r.imageForCodebook
    case ImagePatchesMask => r.imagePatchesMask
  }

  /** The argument of the call: a list of images, or one image on its own. */
  datatype Input<I> = Batch(images: seq<I>) | Single(image: I)

  /** The result of the call: lists per key for a batch, one record otherwise. */
  datatype Output<V> = Lists(lists: map<Key, seq<V>>) | One(record: Record<V>)

  /** The values under key k of the first n transformed images, in order.
      Its ensures only spell out the comprehension for the proofs. */
  ghost function Column<I, V>(images: seq<I>, transform: (nat, I) -> Record<V>, n: nat, k: Key): (c: seq<V>)
    requires n <= |images|
    ensures |c| == n
    ensures forall i :: 0 <= i < n ==> c[i] == Get(transform(i, images[i]), k)
  {
    seq(n, i requires 0 <= i < n => Get(transform(i, images[i]), k))
  }

  /** The column of n + 1 images is the column of n images with image n's value appended. */
  lemma ColumnNext<I, V>(images: seq<I>, transform: (nat, I) -> Record<V>, n: nat, k: Key)
    requires n < |images|
    ensures Column(images, transform, n + 1, k) == Column(images, transform, n, k) + [Get(transform(n, images[n]), k)]
  {
  }

  /** The batch result for `images`: no key at all for an empty list; otherwise
      every key, each with one entry per image in input order, entry i being
      that key's value in the record the i-th call returns for image i. */
  ghost predicate Collated<I, V>(images: seq<I>, transform: (nat, I) -> Record<V>, out: map<Key, seq<V>>) {
    (images == [] ==> out == map[]) &&
    (images != [] ==>
      forall k :: k in out && |out[k]| == |images| &&
        forall i :: 0 <= i < |images| ==> out[k][i] == Get(transform(i, images[i]), k))
  }

  /** After the first n images: no key yet when n is 0, otherwise every key
      holds the column of the first n images. */
  ghost predicate Partial<I, V>(images: seq<I>, transform: (nat, I) -> Record<V>, n: nat, out: map<Key, seq<V>>)
    requires n <= |images|
  {
    forall k :: if n == 0 then k !in out else k in out && out[k] == Column(images, transform, n, k)
  }

  /** The position of key k in Keys. */
  function Position(k: Key): (p: nat)
    ensures p < |Keys| && Keys[p] == k
  {
    match k
    case Image => 0
    case ImageForCodebook => 1
    case ImagePatchesMask => 2
  }

  /** The list branch: walk the images in order and append each key's value of
      each transformed record to that key's list, creating the list on first use. */
  method CollateBatch<I, V>(images: seq<I>, transform: (nat, I) -> Record<V>) returns (output: map<Key, seq<V>>)
    ensures Collated(images, transform, output)
  {
    output := map[];
    for n := 0 to |images|
      invariant Partial(images, transform, n, output)
    {
      var transformed := transform(n, images[n]);
      for j := 0 to |Keys|
        invariant forall k :: Position(k) < j ==>
          k in output && output[k] == Column(images, transform, n + 1, k)
        invariant forall k :: Position(k) >= j ==>
          if n == 0 then k !in output else k in output && output[k] == Column(images, transform, n, k)
      {
        var key := Keys[j];
        ColumnNext(images, transform, n, key);
        if key !in output {
          output := output[key := []];
        }
        output := output[key := output[key] + [Get(transformed, key)]];
      }
    }
    if images == [] {
      assert output.Keys == {} by {
        forall k | k in output ensures false {
        }
      }
    }
  }

  /** The whole call: a list is collated, a single image is transformed. */
  method Call<I, V>(input: Input<I>, transform: (nat, I) -> Record<V>) returns (out: Output<V>)
    ensures input.Batch? ==> out.Lists? && Collated(input.images, transform, out.lists)
    ensures input.Single? ==> out == One(transform(0, input.image))
  {
    match input
    case Batch(images) =>
      var lists := CollateBatch(images, transform);
      out := Lists(lists);
    case Single(image) =>
      out := One(transform(0, image));
  }

  /** The batch result is determined by the images: two collations of the same
      list agree key by key and entry by entry. */
  lemma {:induction false} CollatedUnique<I, V>(images: seq<I>, transform: (nat, I) -> Record<V>,
                                                out1: map<Key, seq<V>>, out2: map<Key, seq<V>>)
    requires Collated(images, transform, out1) && Collated(images, transform, out2)
    ensures out1 == out2
  {
    if images != [] {
      forall k ensures out1[k] == out2[k] {
        assert |out1[k]| == |out2[k]| == |images|;
      }
      assert out1.Keys == out2.Keys;
    }
  }
}
