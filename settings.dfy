/** The compile-time constants at the top of SimplePathTracing.cpp. The output
    texture is created at the window size (TEX_W = WIDTH, TEX_H = HEIGHT). */
module Settings {
  const Width: nat := 1920
  const Height: nat := 1080
  const ChunksX: nat := 2
  const ChunksY: nat := 2
}
