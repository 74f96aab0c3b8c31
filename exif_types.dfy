/** The buffer type and the failures of the EXIF reader. */
module ExifTypes {

  /** One byte of the image buffer, as a DataView reads it with getUint8. */
  type Byte = b: int | 0 <= b < 256

  /** What the reader throws. The first three are the reader's own `Error`s;
      the others are what the JavaScript runtime throws on its behalf. */
  datatype Error =
    | InvalidImageFormat          // 'Invalid image format'
    | NoExifData                  // 'No Exif data'
    | IllegalByteOrder            // 'Illegal byte order value. Faulty image.'
    | OutOfRange                  // RangeError: a DataView read past either end of the buffer
    | UnsupportedType(code: int)  // TypeError: no value reader for this type code
    | PointerNotInteger           // an IFD pointer tag whose value is not one integer
}
