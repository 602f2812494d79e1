/** Day 8, "Space Image Format": split a digit string into layers of
    width * height pixels, check the layer with the fewest '0' digits, and
    composite the layers with '2' as transparent. */
module SpaceImage {
  import opened Wrappers
  import opened Sequences

  // ---------------------------------------------------------------------
  // Arithmetic on a grid of width * height cells
  // ---------------------------------------------------------------------

  lemma MulLe(a: int, b: int, c: int)
    requires a <= b && c >= 0
    ensures a * c <= b * c
  {
    assert b * c - a * c == (b - a) * c;
  }

  /** A non-zero multiple of d is at least d away from 0. */
  lemma MulAway(m: int, d: int)
    requires d > 0
    ensures m >= 1 ==> m * d >= d
    ensures m <= -1 ==> m * d <= -d
  {
    if m >= 1 {
      MulLe(1, m, d);
    }
    if m <= -1 {
      MulLe(m, -1, d);
    }
  }

  /** Division by d has one quotient and one remainder. */
  lemma DivUnique(n: int, d: int, q: int, r: int)
    requires d > 0 && 0 <= r < d && n == q * d + r
    ensures n / d == q && n % d == r
  {
    var q', r' := n / d, n % d;
    assert n == q' * d + r';
    assert (q - q') * d == r' - r;
    MulAway(q - q', d);
  }

  /** Cell (x, y) is the (y * width + x)-th cell of the grid; the last
      cell is the one whose successor wraps round. */
  lemma CellNumber(width: nat, height: nat, x: nat, y: nat)
    requires x < width && y < height
    ensures y * width + x + 1 <= width * height
    ensures y * width + x + 1 == width * height <==> x + 1 == width && y + 1 == height
  {
    MulLe(y, height - 1, width);
    assert (height - 1) * width == height * width - width;
    if y < height - 1 {
      MulLe(y + 1, height - 1, width);
      assert (y + 1) * width == y * width + width;
    }
  }

  /** Two cells with the same number are the same cell. */
  lemma SameCell(width: nat, x1: nat, y1: nat, x2: nat, y2: nat)
    requires x1 < width && x2 < width && y1 * width + x1 == y2 * width + x2
    ensures x1 == x2 && y1 == y2
  {
    assert (y1 - y2) * width == x2 - x1;
    MulAway(y1 - y2, width);
  }

  /** `next()` on `cycle(range(n))` after it yielded v. */
  function Next(v: nat, n: nat): (w: nat)
    requires v < n
    ensures w < n
  {
    if v + 1 == n then 0 else v + 1
  }

  /** The x and y cycles move the cursor from cell (x, y) to the next cell
      number, and back to (0, 0) from the last cell. */
  lemma CursorStep(width: nat, height: nat, x: nat, y: nat)
    requires x < width && y < height
    ensures var x' := Next(x, width);
      var y' := if x' == 0 then Next(y, height) else y;
      && ((x' == 0 && y' == 0) <==> y * width + x + 1 == width * height)
      && (y * width + x + 1 < width * height ==> y' * width + x' == y * width + x + 1)
  {
    CellNumber(width, height, x, y);
    assert (y + 1) * width == y * width + width;
  }

  // ---------------------------------------------------------------------
  // create_image
  // ---------------------------------------------------------------------

  /** The layers of `data`: consecutive chunks of `size` pixels, the last
      one possibly shorter. Layer key k of the source is index k - 1. */
  function Layers(size: nat, data: string): (ls: seq<string>)
    requires size > 0
    ensures ls == [] <==> data == []
    ensures forall k :: 0 <= k < |ls| ==> |ls[k]| <= size
    decreases |data|
  {
    if data == [] then []
    else if |data| <= size then [data]
    else [data[..size]] + Layers(size, data[size..])
  }

  function Flatten(layers: seq<string>): string
  {
    if layers == [] then [] else layers[0] + Flatten(layers[1..])
  }

  /** Reading the layers in key order gives back the input. */
  lemma {:induction false} LayersFlatten(size: nat, data: string)
    requires size > 0
    ensures Flatten(Layers(size, data)) == data
    decreases |data|
  {
    if data != [] {
      if |data| <= size {
        assert [data][1..] == [];
      } else {
        var ls := Layers(size, data);
        assert ls[1..] == Layers(size, data[size..]);
        LayersFlatten(size, data[size..]);
        assert data[..size] + data[size..] == data;
      }
    }
  }

  /** Every layer but the last is full and none is empty; there are
      ceil(|data| / size) of them. */
  lemma {:induction false} LayersShape(size: nat, data: string)
    requires size > 0
    ensures var ls := Layers(size, data);
      && |ls| == (|data| + size - 1) / size
      && (forall k :: 0 <= k < |ls| ==> 1 <= |ls[k]| <= size)
      && (forall k :: 0 <= k < |ls| - 1 ==> |ls[k]| == size)
    decreases |data|
  {
    if data == [] {
      DivUnique(size - 1, size, 0, size - 1);
    } else if |data| <= size {
      DivUnique(|data| + size - 1, size, 1, |data| - 1);
    } else {
      var rest := data[size..];
      LayersShape(size, rest);
      var q := (|rest| + size - 1) / size;
      var r := (|rest| + size - 1) % size;
      DivUnique(|data| + size - 1, size, q + 1, r);
      var ls := Layers(size, data);
      assert forall k :: 1 <= k < |ls| ==> ls[k] == Layers(size, rest)[k - 1];
    }
  }

  /** Pixel r of the layer at index q is input pixel q * size + r. */
  lemma {:induction false} LayersCell(size: nat, data: string, q: nat, r: nat)
    requires size > 0 && r < size && q * size + r < |data|
    ensures var ls := Layers(size, data);
      q < |ls| && r < |ls[q]| && ls[q][r] == data[q * size + r]
    decreases q
  {
    if q > 0 {
      var rest := data[size..];
      MulAway(q, size);
      assert q * size + r == (q - 1) * size + r + size;
      LayersCell(size, rest, q - 1, r);
      assert Layers(size, data) == [data[..size]] + Layers(size, rest);
    }
  }

  /** The pixel at position i of the input is pixel i % size of the layer
      at index i / size, which is key i / size + 1. */
  lemma LayersIndex(size: nat, data: string, i: nat)
    requires size > 0 && i < |data|
    ensures var ls := Layers(size, data);
      i / size < |ls| && i % size < |ls[i / size]| && ls[i / size][i % size] == data[i]
  {
    var q, r := i / size, i % size;
    assert q * size + r == i;
    LayersCell(size, data, q, r);
  }

  /** One more pixel goes into a new layer exactly when the last layer is
      full, and onto the end of the last layer otherwise. */
  lemma {:induction false} LayersSnoc(size: nat, data: string, c: char)
    requires size > 0 && data != []
    ensures var ls := Layers(size, data);
      Layers(size, data + [c]) ==
        if |ls[|ls| - 1]| == size then ls + [[c]] else ls[|ls| - 1 := ls[|ls| - 1] + [c]]
    decreases |data|
  {
    var d := data + [c];
    if |data| < size {
    } else if |data| == size {
      assert d[..size] == data && d[size..] == [c];
    } else {
      assert d[..size] == data[..size] && d[size..] == data[size..] + [c];
      LayersSnoc(size, data[size..], c);
    }
  }

  /** The cycles' cursor and the layers advance together: the pixel after
      cell (x, y) opens a new layer exactly when the cursor wraps to (0, 0),
      and the last layer then ends at the cursor's new cell. */
  lemma PixelStep(width: nat, height: nat, data: string, c: char, x: nat, y: nat)
    requires x < width && y < height && data != []
    requires var ls := Layers(width * height, data); |ls[|ls| - 1]| == y * width + x + 1
    ensures var ls := Layers(width * height, data);
      var x' := Next(x, width);
      var y' := if x' == 0 then Next(y, height) else y;
      var ls' := Layers(width * height, data + [c]);
      && ls' == (if x' == 0 && y' == 0 then ls + [[c]] else ls[|ls| - 1 := ls[|ls| - 1] + [c]])
      && |ls'[|ls'| - 1]| == y' * width + x' + 1
  {
    LayersSnoc(width * height, data, c);
    CursorStep(width, height, x, y);
  }

  /** `create_image(width, height, data)`: None stands for the
      StopIteration that `next()` on an empty cycle raises. */
  method CreateImage(width: nat, height: nat, data: string) returns (r: Option<seq<string>>)
    ensures r.None? <==> data != [] && (width == 0 || height == 0)
    ensures r.Some? ==> r.value == if data == [] then [] else Layers(width * height, data)
  {
    var xNext: nat, yNext: nat := 0, 0;
    var currentX: nat, currentY: nat, currentLayer := 0, 0, 0;
    var layers: seq<string> := [];
    var i := 0;
    while i < |data|
      invariant 0 <= i <= |data|
      invariant i == 0 ==> xNext == 0 && yNext == 0 && currentLayer == 0 && layers == []
      invariant i > 0 ==> width > 0 && height > 0 && layers == Layers(width * height, data[..i])
      invariant i > 0 ==> currentX < width && currentY < height && currentLayer == |layers|
      invariant i > 0 ==> xNext == Next(currentX, width) && yNext == Next(currentY, height)
      invariant i > 0 ==> |layers[|layers| - 1]| == currentY * width + currentX + 1
    {
      var pixel := data[i];
      if width == 0 {
        return None;
      }
      ghost var oldX, oldY := currentX, currentY;
      currentX := xNext;
      xNext := Next(xNext, width);
      if currentX == 0 {
        if height == 0 {
          return None;
        }
        currentY := yNext;
        yNext := Next(yNext, height);
        if currentY == 0 {
          currentLayer := currentLayer + 1;
        }
      }
      assert data[..i + 1] == data[..i] + [pixel];
      if i > 0 {
        PixelStep(width, height, data[..i], pixel, oldX, oldY);
      } else {
        MulLe(1, width, height);
        assert data[..i + 1] == [pixel] && layers + [[pixel]] == [[pixel]];
      }
      if currentLayer == |layers| + 1 {
        layers := layers + [[pixel]];
      } else {
        layers := layers[currentLayer - 1 := layers[currentLayer - 1] + [pixel]];
      }
      i := i + 1;
    }
    assert data[..i] == data;
    r := Some(layers);
  }

  // ---------------------------------------------------------------------
  // validate
  // ---------------------------------------------------------------------

  /** The starting value of `min_zeroes`. */
  const Limit := 10000000

  /** Among the first n layers, layer k has strictly fewer '0's than every
      earlier one, no more than every later one, and fewer than Limit. */
  predicate FewestAmong(layers: seq<string>, n: nat, k: int)
    requires n <= |layers|
  {
    && 0 <= k < n && Count(layers[k], '0') < Limit
    && (forall j :: 0 <= j < k ==> Count(layers[j], '0') > Count(layers[k], '0'))
    && (forall j :: k < j < n ==> Count(layers[j], '0') >= Count(layers[k], '0'))
  }

  /** The answer for one layer: its '1' count times its '2' count. */
  function Checksum(layer: string): (r: nat)
    ensures r == 0 <==> '1' !in layer || '2' !in layer
  {
    CountBounds(layer, '1');
    CountBounds(layer, '2');
    Count(layer, '1') * Count(layer, '2')
  }

  /** `validate(layers)`: the checksum of the first layer with the fewest
      '0's, or of the empty list the defaultdict hands back for the key
      "" when no layer has fewer than Limit '0's. */
  method Validate(layers: seq<string>) returns (r: nat)
    ensures || (exists k :: FewestAmong(layers, |layers|, k) && r == Checksum(layers[k]))
            || ((forall j :: 0 <= j < |layers| ==> Count(layers[j], '0') >= Limit) && r == 0)
  {
    var minZeroes := Limit;
    var minLayer: Option<nat> := None;
    var k := 0;
    while k < |layers|
      invariant 0 <= k <= |layers|
      invariant minLayer.None? ==> minZeroes == Limit && forall j :: 0 <= j < k ==> Count(layers[j], '0') >= Limit
      invariant minLayer.Some? ==> FewestAmong(layers, k, minLayer.value) && minZeroes == Count(layers[minLayer.value], '0')
    {
      var zeroes := Count(layers[k], '0');
      if zeroes < minZeroes {
        FewestTake(layers, k, minLayer);
        minZeroes := zeroes;
        minLayer := Some(k);
      } else if minLayer.Some? {
        FewestKeep(layers, k, minLayer.value);
      }
      k := k + 1;
    }
    if minLayer.Some? {
      r := Checksum(layers[minLayer.value]);
      assert FewestAmong(layers, |layers|, minLayer.value);
    } else {
      r := Checksum([]);
    }
  }

  lemma FewestKeep(layers: seq<string>, n: nat, k: nat)
    requires n < |layers| && FewestAmong(layers, n, k) && Count(layers[n], '0') >= Count(layers[k], '0')
    ensures FewestAmong(layers, n + 1, k)
  {
  }

  lemma FewestTake(layers: seq<string>, n: nat, best: Option<nat>)
    requires n < |layers| && Count(layers[n], '0') < Limit
    requires best.None? ==> forall j :: 0 <= j < n ==> Count(layers[j], '0') >= Limit
    requires best.Some? ==> FewestAmong(layers, n, best.value) && Count(layers[n], '0') < Count(layers[best.value], '0')
    ensures FewestAmong(layers, n + 1, n)
  {
  }

  /** At most one layer is the first with the fewest '0's. */
  lemma FewestUnique(layers: seq<string>, n: nat, k1: int, k2: int)
    requires n <= |layers| && FewestAmong(layers, n, k1) && FewestAmong(layers, n, k2)
    ensures k1 == k2
  {
  }

  // ---------------------------------------------------------------------
  // draw_image, with the PIL image replaced by a grid of cells
  // ---------------------------------------------------------------------

  /** A cell of the image: as created (`Image.new`), or painted. */
  datatype Pixel = Unpainted | Black | White

  /** Where the j-th pixel of a layer lands: the x and y cycles restart for
      every layer, and y advances when x comes round to 0. */
  function Pos(j: nat, width: nat, height: nat): (p: (nat, nat))
    requires width > 0 && height > 0
    ensures p.0 < width && p.1 < height
  {
    if j == 0 then (0, 0)
    else
      var p := Pos(j - 1, width, height);
      var x := Next(p.0, width);
      (x, if x == 0 then Next(p.1, height) else p.1)
  }

  /** Within one screenful, the j-th pixel lands on cell number j. */
  lemma {:induction false} PosIndex(j: nat, width: nat, height: nat)
    requires width > 0 && height > 0 && j < width * height
    ensures Pos(j, width, height).1 * width + Pos(j, width, height).0 == j
  {
    if j > 0 {
      PosIndex(j - 1, width, height);
      var p := Pos(j - 1, width, height);
      CursorStep(width, height, p.0, p.1);
    }
  }

  /** What a pixel digit does to the cell under it: '0' and '1' paint it,
      anything else ('2') leaves it. */
  function Ink(pixel: char, under: Pixel): (c: Pixel)
    ensures c == under <==> (pixel != '0' && pixel != '1') || (pixel == '0' && under == Black) || (pixel == '1' && under == White)
  {
    if pixel == '0' then Black else if pixel == '1' then White else under
  }

  /** Cell (x, y) after the first n pixels of a layer are painted over
      `below`. */
  function Paint(below: Pixel, layer: string, n: nat, width: nat, height: nat, x: nat, y: nat): Pixel
    requires width > 0 && height > 0 && n <= |layer|
  {
    if n == 0 then below
    else
      var c := Paint(below, layer, n - 1, width, height, x, y);
      if Pos(n - 1, width, height) == (x, y) then Ink(layer[n - 1], c) else c
  }

  /** Cell (x, y) after the layers from index k to the last are painted,
      last first. */
  function Drawn(layers: seq<string>, k: nat, width: nat, height: nat, x: nat, y: nat): Pixel
    requires width > 0 && height > 0 && k <= |layers|
    decreases |layers| - k
  {
    if k == |layers| then Unpainted
    else Paint(Drawn(layers, k + 1, width, height, x, y), layers[k], |layers[k]|, width, height, x, y)
  }

  /** `draw_image(width, height, layers)`: None stands for the ValueError
      of `max()` on no layers and for the StopIteration of an empty cycle. */
  method DrawImage(width: nat, height: nat, layers: seq<string>) returns (r: Option<array2<Pixel>>)
    ensures r.None? <==> |layers| == 0 || ((width == 0 || height == 0) && exists k :: 0 <= k < |layers| && layers[k] != [])
    ensures r.Some? ==> fresh(r.value) && r.value.Length0 == width && r.value.Length1 == height
    ensures r.Some? ==> forall x, y :: 0 <= x < width && 0 <= y < height ==>
      r.value[x, y] == Drawn(layers, 0, width, height, x, y)
  {
    if |layers| == 0 {
      return None;
    }
    var img := new Pixel[width, height]((x, y) => Unpainted);
    var layer := |layers|;
    while layer > 0
      invariant 0 <= layer <= |layers|
      invariant (width == 0 || height == 0) ==> forall k :: layer <= k < |layers| ==> layers[k] == []
      invariant forall x, y :: 0 <= x < width && 0 <= y < height ==>
        img[x, y] == Drawn(layers, layer, width, height, x, y)
      modifies img
    {
      var pixels := layers[layer - 1];
      var xNext: nat, yNext: nat := 0, 0;
      var currentX: nat, currentY: nat := 0, 0;
      var j := 0;
      while j < |pixels|
        invariant 0 <= j <= |pixels|
        invariant j > 0 ==> width > 0 && height > 0
        invariant j > 0 ==> currentX < width && currentY < height && (currentX, currentY) == Pos(j - 1, width, height)
        invariant j > 0 ==> xNext == Next(currentX, width) && yNext == Next(currentY, height)
        invariant j == 0 ==> xNext == 0 && yNext == 0
        invariant forall x, y :: 0 <= x < width && 0 <= y < height ==>
          img[x, y] == Paint(Drawn(layers, layer, width, height, x, y), pixels, j, width, height, x, y)
        modifies img
      {
        if width == 0 {
          return None;
        }
        currentX := xNext;
        xNext := Next(xNext, width);
        if currentX == 0 {
          if height == 0 {
            return None;
          }
          currentY := yNext;
          yNext := Next(yNext, height);
        }
        var pixel := pixels[j];
        if pixel == '0' {
          img[currentX, currentY] := Black;
        } else if pixel == '1' {
          img[currentX, currentY] := White;
        }
        j := j + 1;
      }
      layer := layer - 1;
    }
    r := Some(img);
  }

  /** The first layer from index k on that is black or white at cell
      number p, or Unpainted when every layer is transparent there. */
  function Top(layers: seq<string>, k: nat, p: nat): Pixel
    decreases |layers| - k
  {
    if k >= |layers| then Unpainted
    else if p < |layers[k]| && (layers[k][p] == '0' || layers[k][p] == '1') then Ink(layers[k][p], Unpainted)
    else Top(layers, k + 1, p)
  }

  /** Painting a layer of at most one screenful changes cell (x, y) only
      through its pixel number y * width + x. */
  lemma {:induction false} PaintCell(below: Pixel, layer: string, n: nat, width: nat, height: nat, x: nat, y: nat)
    requires width > 0 && height > 0 && x < width && y < height
    requires n <= |layer| <= width * height
    ensures var p := y * width + x;
      Paint(below, layer, n, width, height, x, y) ==
        if p < n && (layer[p] == '0' || layer[p] == '1') then Ink(layer[p], below) else below
  {
    if n > 0 {
      PaintCell(below, layer, n - 1, width, height, x, y);
      var q := Pos(n - 1, width, height);
      PosIndex(n - 1, width, height);
      if q == (x, y) {
        assert y * width + x == n - 1;
      } else if y * width + x == n - 1 {
        SameCell(width, x, y, q.0, q.1);
      }
    }
  }

  /** Compositing: with every layer at most one screenful, cell (x, y)
      shows the lowest-numbered layer that is black or white there. */
  lemma {:induction false} Composite(layers: seq<string>, k: nat, width: nat, height: nat, x: nat, y: nat)
    requires width > 0 && height > 0 && x < width && y < height && k <= |layers|
    requires forall j :: 0 <= j < |layers| ==> |layers[j]| <= width * height
    ensures Drawn(layers, k, width, height, x, y) == Top(layers, k, y * width + x)
    decreases |layers| - k
  {
    if k < |layers| {
      Composite(layers, k + 1, width, height, x, y);
      PaintCell(Drawn(layers, k + 1, width, height, x, y), layers[k], |layers[k]|, width, height, x, y);
    }
  }

  /** A cell is left as created exactly when no layer is black or white
      there. */
  lemma {:induction false} TopUnpainted(layers: seq<string>, k: nat, p: nat)
    ensures Top(layers, k, p) == Unpainted <==>
      forall j :: k <= j < |layers| && p < |layers[j]| ==> layers[j][p] != '0' && layers[j][p] != '1'
    decreases |layers| - k
  {
    if k < |layers| {
      TopUnpainted(layers, k + 1, p);
    }
  }

  /** The layers `create_image` builds meet the one-screenful condition,
      so the decoded image is `Top` at every cell. */
  lemma DecodeImage(width: nat, height: nat, data: string, x: nat, y: nat)
    requires width > 0 && height > 0 && x < width && y < height
    ensures Drawn(Layers(width * height, data), 0, width, height, x, y) ==
      Top(Layers(width * height, data), 0, y * width + x)
  {
    LayersShape(width * height, data);
    Composite(Layers(width * height, data), 0, width, height, x, y);
  }

  // ---------------------------------------------------------------------
  // The examples of the puzzle text
  // ---------------------------------------------------------------------

  lemma SampleLayers()
    ensures Layers(6, "123456789012") == ["123456", "789012"]
  {
    var s := "123456789012";
    assert s[..6] == "123456" && s[6..] == "789012";
  }

  /** `validate(create_image(3, 2, 123456789012)) == 1`: the first layer
      has no '0' and one each of '1' and '2'. */
  lemma SampleChecksum()
    ensures var ls := Layers(3 * 2, "123456789012");
      FewestAmong(ls, |ls|, 0) && Checksum(ls[0]) == 1
  {
    SampleLayers();
    SampleZeros();
    SampleOnesTwos();
  }

  lemma SampleZeros()
    ensures Count("123456", '0') == 0 && Count("789012", '0') == 1
  {
  }

  lemma SampleOnesTwos()
    ensures Count("123456", '1') == 1 && Count("123456", '2') == 1
  {
  }

  lemma DecodeLayers()
    ensures Layers(4, "0222112222120000") == ["0222", "1122", "2212", "0000"]
  {
    var s := "0222112222120000";
    assert s[..4] == "0222" && s[4..] == "112222120000";
    assert s[4..][..4] == "1122" && s[4..][4..] == "22120000";
    assert s[8..][..4] == "2212" && s[8..][4..] == "0000";
  }

  /** The 2 x 2 example decodes to black, white / white, black ("01",
      "10"). */
  lemma SampleDecode()
    ensures var ls := Layers(2 * 2, "0222112222120000");
      && Drawn(ls, 0, 2, 2, 0, 0) == Black && Drawn(ls, 0, 2, 2, 1, 0) == White
      && Drawn(ls, 0, 2, 2, 0, 1) == White && Drawn(ls, 0, 2, 2, 1, 1) == Black
  {
    var s := "0222112222120000";
    DecodeLayers();
    var ls := ["0222", "1122", "2212", "0000"];
    DecodeImage(2, 2, s, 0, 0);
    DecodeImage(2, 2, s, 1, 0);
    DecodeImage(2, 2, s, 0, 1);
    DecodeImage(2, 2, s, 1, 1);
    assert Top(ls, 0, 0) == Black;
    assert Top(ls, 1, 1) == White;
    assert Top(ls, 2, 2) == White;
    assert Top(ls, 3, 3) == Black;
  }
}
