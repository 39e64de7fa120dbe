/**
 * Camera images, as the simulator returns them and as the dataset stores
 * them: height x width x channels arrays of integers.
 */
module Images {

  /** An image is its rows, top to bottom; a row is its pixels; a pixel is its channel values. */
  type Pixel = seq<int>
  type Row = seq<Pixel>
  type Image = seq<Row>
}
